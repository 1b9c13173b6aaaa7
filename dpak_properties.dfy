/** What the DPAK reader and writer promise about each other: decoding is the
    inverse of encoding (up to the two accepted magics and trailing bytes),
    sections correspond by position, and the reader consumes exactly
    6 + 4N + sum(2 + len_i) + sum(size_i) bytes. */
module DpakProperties {
  import opened LittleEndian
  import opened DpakFormat

  predicate NamesFit(names: seq<seq<byte>>) {
    forall i :: 0 <= i < |names| ==> |names[i]| < TwoTo16
  }

  predicate PayloadsFit(sizes: seq<nat>, ps: seq<seq<byte>>) {
    |ps| == |sizes| && forall i :: 0 <= i < |sizes| ==> sizes[i] < SizeLimit && |ps[i]| == sizes[i]
  }

  /** Where the i-th length-prefixed name starts. */
  function NameOffset(es: seq<Entry>, i: nat): nat
    requires i <= |es|
  {
    6 + 4 * |es| + NamesLength(Names(es)[..i])
  }

  /** Where the i-th payload starts: after the name section and the earlier payloads. */
  function PayloadOffset(es: seq<Entry>, i: nat): nat
    requires i <= |es|
  {
    6 + 4 * |es| + NamesLength(Names(es)) + TotalSize(Sizes(es)[..i])
  }

  // ---------------------------------------------------------------------
  // Sequence helpers

  /** Adjacent slices joined give the slice spanning them. */
  lemma SliceJoin(s: seq<byte>, lo: nat, mid: nat, hi: nat, a: seq<byte>, b: seq<byte>)
    requires lo <= mid <= hi <= |s| && s[lo..mid] == a && s[mid..hi] == b
    ensures s[lo..hi] == a + b
  {
    assert s[lo..hi] == s[lo..mid] + s[mid..hi];
  }

  /** A slice equal to a + b splits at |a| into a and b. */
  lemma SliceParts(s: seq<byte>, lo: nat, mid: nat, hi: nat, a: seq<byte>, b: seq<byte>)
    requires lo <= mid <= hi <= |s| && |a| == mid - lo && s[lo..hi] == a + b
    ensures s[lo..mid] == a && s[mid..hi] == b
  {
    assert s[lo..mid] == s[lo..hi][..mid - lo];
    assert s[mid..hi] == s[lo..hi][mid - lo..];
  }

  lemma SliceJoin4(s: seq<byte>, p0: nat, p1: nat, p2: nat, p3: nat, p4: nat,
                   a: seq<byte>, b: seq<byte>, c: seq<byte>, d: seq<byte>)
    requires p0 <= p1 <= p2 <= p3 <= p4 <= |s|
    requires s[p0..p1] == a && s[p1..p2] == b && s[p2..p3] == c && s[p3..p4] == d
    ensures s[p0..p4] == a + b + c + d
  {
    SliceJoin(s, p2, p3, p4, c, d);
    SliceJoin(s, p1, p2, p4, b, c + d);
    SliceJoin(s, p0, p1, p4, a, b + (c + d));
    assert a + (b + (c + d)) == a + b + c + d;
  }

  lemma SliceParts4(s: seq<byte>, p0: nat, p1: nat, p2: nat, p3: nat, p4: nat,
                    a: seq<byte>, b: seq<byte>, c: seq<byte>, d: seq<byte>)
    requires p1 == p0 + |a| && p2 == p1 + |b| && p3 == p2 + |c| && p4 == p3 + |d| && p4 <= |s|
    requires s[p0..p4] == a + b + c + d
    ensures s[p0..p1] == a && s[p1..p2] == b && s[p2..p3] == c && s[p3..p4] == d
  {
    assert a + b + c + d == a + (b + (c + d));
    SliceParts(s, p0, p1, p4, a, b + (c + d));
    SliceParts(s, p1, p2, p4, b, c + d);
    SliceParts(s, p2, p3, p4, c, d);
  }

  // ---------------------------------------------------------------------
  // Section algebra

  lemma {:induction false} SizesSectionAppend(a: seq<nat>, b: seq<nat>)
    ensures SizesSection(a + b) == SizesSection(a) + SizesSection(b)
    decreases |a|
  {
    if a != [] {
      assert (a + b)[1..] == a[1..] + b;
      SizesSectionAppend(a[1..], b);
    } else {
      assert a + b == b;
    }
  }

  lemma {:induction false} NamesSectionAppend(a: seq<seq<byte>>, b: seq<seq<byte>>)
    ensures NamesSection(a + b) == NamesSection(a) + NamesSection(b)
    decreases |a|
  {
    if a != [] {
      assert (a + b)[1..] == a[1..] + b;
      NamesSectionAppend(a[1..], b);
    } else {
      assert a + b == b;
    }
  }

  lemma {:induction false} ConcatAppend(a: seq<seq<byte>>, b: seq<seq<byte>>)
    ensures Concat(a + b) == Concat(a) + Concat(b)
    decreases |a|
  {
    if a != [] {
      assert (a + b)[1..] == a[1..] + b;
      ConcatAppend(a[1..], b);
    } else {
      assert a + b == b;
    }
  }

  lemma {:induction false} TotalSizeAppend(a: seq<nat>, b: seq<nat>)
    ensures TotalSize(a + b) == TotalSize(a) + TotalSize(b)
    decreases |a|
  {
    if a != [] {
      assert (a + b)[1..] == a[1..] + b;
      TotalSizeAppend(a[1..], b);
    } else {
      assert a + b == b;
    }
  }

  /** The name section is as long as NamesLength says. */
  lemma {:induction false} NamesSectionLength(names: seq<seq<byte>>)
    ensures |NamesSection(names)| == NamesLength(names)
    decreases |names|
  {
    if names != [] {
      NamesSectionLength(names[1..]);
    }
  }

  /** Payloads as long as their sizes concatenate to TotalSize bytes. */
  lemma {:induction false} ConcatLength(ps: seq<seq<byte>>, sizes: seq<nat>)
    requires |ps| == |sizes| && forall i :: 0 <= i < |ps| ==> |ps[i]| == sizes[i]
    ensures |Concat(ps)| == TotalSize(sizes)
    decreases |ps|
  {
    if ps != [] {
      ConcatLength(ps[1..], sizes[1..]);
    }
  }

  // ---------------------------------------------------------------------
  // Each reader against its section writer

  /** The i-th size read is the u32 at pos + 4i. */
  lemma {:induction false} ReadSizesAt(s: seq<byte>, pos: nat, n: nat, i: nat)
    requires pos + 4 * n <= |s| && i < n
    ensures ReadSizes(s, pos, n)[i] == U32At(s, pos + 4 * i)
    decreases i
  {
    if i > 0 {
      ReadSizesAt(s, pos + 4, n - 1, i - 1);
    }
  }

  /** Sizes read back from a size section are the sizes written. */
  lemma {:induction false} ReadSizesComplete(s: seq<byte>, pos: nat, sizes: seq<nat>)
    requires pos + 4 * |sizes| <= |s| && s[pos..pos + 4 * |sizes|] == SizesSection(sizes)
    requires forall i :: 0 <= i < |sizes| ==> sizes[i] < TwoTo32
    ensures ReadSizes(s, pos, |sizes|) == sizes
    decreases |sizes|
  {
    if sizes != [] {
      var end := pos + 4 * |sizes|;
      SliceParts(s, pos, pos + 4, end, U32Bytes(sizes[0]), SizesSection(sizes[1..]));
      U32AtOfBytes(s, pos, sizes[0]);
      ReadSizesComplete(s, pos + 4, sizes[1..]);
      assert sizes == [sizes[0]] + sizes[1..];
    }
  }

  /** The bytes under a size read are the section written for what was read. */
  lemma {:induction false} ReadSizesSound(s: seq<byte>, pos: nat, n: nat)
    requires pos + 4 * n <= |s|
    ensures s[pos..pos + 4 * n] == SizesSection(ReadSizes(s, pos, n))
    decreases n
  {
    if n > 0 {
      var r := ReadSizes(s, pos, n);
      ReadSizesSound(s, pos + 4, n - 1);
      U32BytesOfAt(s, pos);
      assert r[1..] == ReadSizes(s, pos + 4, n - 1);
      SliceJoin(s, pos, pos + 4, pos + 4 * n, U32Bytes(r[0]), SizesSection(r[1..]));
    }
  }

  lemma NamesFitCons(names: seq<seq<byte>>)
    requires names != []
    ensures NamesFit(names) <==> |names[0]| < TwoTo16 && NamesFit(names[1..])
  {
    if |names[0]| < TwoTo16 && NamesFit(names[1..]) {
      forall i | 0 <= i < |names| ensures |names[i]| < TwoTo16 {
        if i > 0 { assert names[i] == names[1..][i - 1]; }
      }
    }
  }

  /** One step of a successful name read: the first name, and where the rest starts. */
  lemma ReadNamesStep(s: seq<byte>, pos: nat, n: nat, names: seq<seq<byte>>, end: nat) returns (next: nat)
    requires pos <= |s| && n > 0 && ReadNames(s, pos, n) == Ok((names, end))
    ensures next == pos + 2 + |names[0]| <= |s| && U16At(s, pos) == |names[0]|
    ensures names[0] == s[pos + 2..next]
    ensures ReadNames(s, next, n - 1) == Ok((names[1..], end))
  {
    next := pos + 2 + |names[0]|;
  }

  /** One step of a name read that succeeds: a name in place, then the rest. */
  lemma ReadNamesCons(s: seq<byte>, pos: nat, n: nat, h: seq<byte>, t: seq<seq<byte>>, next: nat, end: nat)
    requires n > 0 && next == pos + 2 + |h| <= |s| && U16At(s, pos) == |h| && s[pos + 2..next] == h
    requires ReadNames(s, next, n - 1) == Ok((t, end))
    ensures ReadNames(s, pos, n) == Ok(([h] + t, end))
  {
  }

  lemma NamesSectionCons(names: seq<seq<byte>>)
    requires names != []
    ensures NamesSection(names) == U16Bytes(|names[0]|) + (names[0] + NamesSection(names[1..]))
  {
  }

  /** A successful name read ends NamesLength bytes on, with every name fitting a u16. */
  lemma {:induction false} ReadNamesLength(s: seq<byte>, pos: nat, n: nat, names: seq<seq<byte>>, end: nat)
    requires pos <= |s| && ReadNames(s, pos, n) == Ok((names, end))
    ensures NamesFit(names) && end == pos + NamesLength(names)
    decreases n
  {
    if n > 0 {
      var next := ReadNamesStep(s, pos, n, names, end);
      ReadNamesLength(s, next, n - 1, names[1..], end);
      NamesFitCons(names);
    }
  }

  /** The bytes under a successful name read are the section written for the names read. */
  lemma {:induction false} ReadNamesSound(s: seq<byte>, pos: nat, n: nat, names: seq<seq<byte>>, end: nat)
    requires pos <= |s| && ReadNames(s, pos, n) == Ok((names, end))
    ensures s[pos..end] == NamesSection(names)
    decreases n
  {
    if n > 0 {
      var h := names[0];
      var next := ReadNamesStep(s, pos, n, names, end);
      ReadNamesSound(s, next, n - 1, names[1..], end);
      U16BytesOfAt(s, pos);
      SliceJoin(s, pos + 2, next, end, h, NamesSection(names[1..]));
      SliceJoin(s, pos, pos + 2, end, U16Bytes(|h|), h + NamesSection(names[1..]));
      NamesSectionCons(names);
    }
  }

  /** A name section in place: the first name's length, the name, and the rest. */
  lemma NamesSectionParts(s: seq<byte>, pos: nat, names: seq<seq<byte>>, end: nat)
    requires names != [] && end == pos + |NamesSection(names)| <= |s|
    requires s[pos..end] == NamesSection(names)
    ensures var next := pos + 2 + |names[0]|;
      next + |NamesSection(names[1..])| == end && next <= end &&
      s[pos..pos + 2] == U16Bytes(|names[0]|) && s[pos + 2..next] == names[0] &&
      s[next..end] == NamesSection(names[1..])
  {
    var h, t := names[0], names[1..];
    assert NamesSection(names) == U16Bytes(|h|) + (h + NamesSection(t));
    SliceParts(s, pos, pos + 2, end, U16Bytes(|h|), h + NamesSection(t));
    SliceParts(s, pos + 2, pos + 2 + |h|, end, h, NamesSection(t));
  }

  /** A name section in place is read back whole. */
  lemma {:induction false} ReadNamesComplete(s: seq<byte>, pos: nat, n: nat, names: seq<seq<byte>>, end: nat)
    requires |names| == n && NamesFit(names) && end == pos + |NamesSection(names)| <= |s|
    requires s[pos..end] == NamesSection(names)
    ensures ReadNames(s, pos, n) == Ok((names, end))
    decreases n
  {
    if n > 0 {
      var h, t := names[0], names[1..];
      var next := pos + 2 + |h|;
      NamesSectionParts(s, pos, names, end);
      NamesFitCons(names);
      U16AtOfBytes(s, pos, |h|);
      ReadNamesComplete(s, next, n - 1, t, end);
      ReadNamesCons(s, pos, n, h, t, next, end);
      assert names == [h] + t;
    }
  }

  /** A name field at offset o: a u16 holding the name's length, then its bytes. */
  predicate NameFieldAt(s: seq<byte>, o: nat, name: seq<byte>) {
    o + 2 + |name| <= |s| && U16At(s, o) == |name| && s[o + 2..o + 2 + |name|] == name
  }

  lemma NamesLengthPrefix(names: seq<seq<byte>>, i: nat)
    requires 0 < i <= |names|
    ensures NamesLength(names[..i]) == 2 + |names[0]| + NamesLength(names[1..][..i - 1])
  {
    assert names[..i][1..] == names[1..][..i - 1];
  }

  /** The i-th name read sits after the first i length-prefixed names. */
  lemma {:induction false} ReadNamesAt(s: seq<byte>, pos: nat, n: nat, names: seq<seq<byte>>, end: nat, i: nat)
    returns (o: nat)
    requires pos <= |s| && ReadNames(s, pos, n) == Ok((names, end)) && i < n
    ensures o == pos + NamesLength(names[..i])
    ensures NameFieldAt(s, o, names[i])
    decreases i
  {
    var next := ReadNamesStep(s, pos, n, names, end);
    if i > 0 {
      o := ReadNamesAt(s, next, n - 1, names[1..], end, i - 1);
      NamesLengthPrefix(names, i);
      assert names[1..][i - 1] == names[i];
    } else {
      o := pos;
      assert names[..0] == [];
    }
  }

  lemma PayloadsFitCons(sizes: seq<nat>, ps: seq<seq<byte>>)
    requires sizes != [] && |ps| == |sizes|
    ensures PayloadsFit(sizes, ps) <==>
      sizes[0] < SizeLimit && |ps[0]| == sizes[0] && PayloadsFit(sizes[1..], ps[1..])
  {
    if sizes[0] < SizeLimit && |ps[0]| == sizes[0] && PayloadsFit(sizes[1..], ps[1..]) {
      forall i | 0 <= i < |sizes| ensures sizes[i] < SizeLimit && |ps[i]| == sizes[i] {
        if i > 0 { assert sizes[i] == sizes[1..][i - 1] && ps[i] == ps[1..][i - 1]; }
      }
    }
  }

  /** One step of a successful payload read: the first payload, and where the rest starts. */
  lemma ReadPayloadsStep(s: seq<byte>, pos: nat, sizes: seq<nat>, ps: seq<seq<byte>>, end: nat) returns (next: nat)
    requires pos <= |s| && sizes != [] && ReadPayloads(s, pos, sizes) == Ok((ps, end))
    ensures sizes[0] < SizeLimit && next == pos + sizes[0] <= |s| && ps[0] == s[pos..next]
    ensures ReadPayloads(s, next, sizes[1..]) == Ok((ps[1..], end))
  {
    next := pos + sizes[0];
  }

  /** One step of a payload read that succeeds: a payload in place, then the rest. */
  lemma ReadPayloadsCons(s: seq<byte>, pos: nat, sizes: seq<nat>, h: seq<byte>, t: seq<seq<byte>>, next: nat, end: nat)
    requires sizes != [] && sizes[0] < SizeLimit && next == pos + sizes[0] <= |s| && s[pos..next] == h
    requires ReadPayloads(s, next, sizes[1..]) == Ok((t, end))
    ensures ReadPayloads(s, pos, sizes) == Ok(([h] + t, end))
  {
  }

  /** A successful payload read ends TotalSize bytes on, with payloads of their sizes. */
  lemma {:induction false} ReadPayloadsLength(s: seq<byte>, pos: nat, sizes: seq<nat>, ps: seq<seq<byte>>, end: nat)
    requires pos <= |s| && ReadPayloads(s, pos, sizes) == Ok((ps, end))
    ensures PayloadsFit(sizes, ps) && end == pos + TotalSize(sizes)
    decreases |sizes|
  {
    if sizes != [] {
      var next := ReadPayloadsStep(s, pos, sizes, ps, end);
      ReadPayloadsLength(s, next, sizes[1..], ps[1..], end);
      PayloadsFitCons(sizes, ps);
    }
  }

  /** The bytes under a successful payload read are the payloads read, concatenated. */
  lemma {:induction false} ReadPayloadsSound(s: seq<byte>, pos: nat, sizes: seq<nat>, ps: seq<seq<byte>>, end: nat)
    requires pos <= |s| && ReadPayloads(s, pos, sizes) == Ok((ps, end))
    ensures s[pos..end] == Concat(ps)
    decreases |sizes|
  {
    if sizes != [] {
      var next := ReadPayloadsStep(s, pos, sizes, ps, end);
      ReadPayloadsSound(s, next, sizes[1..], ps[1..], end);
      SliceJoin(s, pos, next, end, ps[0], Concat(ps[1..]));
    }
  }

  /** Payloads in place, each as long as its size, are read back whole. */
  lemma {:induction false} ReadPayloadsComplete(s: seq<byte>, pos: nat, sizes: seq<nat>, ps: seq<seq<byte>>, end: nat)
    requires PayloadsFit(sizes, ps) && end == pos + |Concat(ps)| <= |s|
    requires s[pos..end] == Concat(ps)
    ensures ReadPayloads(s, pos, sizes) == Ok((ps, end))
    decreases |sizes|
  {
    if sizes != [] {
      var h, t := ps[0], ps[1..];
      var next := pos + sizes[0];
      assert Concat(ps) == h + Concat(t);
      PayloadsFitCons(sizes, ps);
      SliceParts(s, pos, next, end, h, Concat(t));
      ReadPayloadsComplete(s, next, sizes[1..], t, end);
      ReadPayloadsCons(s, pos, sizes, h, t, next, end);
      assert ps == [h] + t;
    }
  }

  lemma TotalSizePrefix(sizes: seq<nat>, i: nat)
    requires 0 < i <= |sizes|
    ensures TotalSize(sizes[..i]) == sizes[0] + TotalSize(sizes[1..][..i - 1])
  {
    assert sizes[..i][1..] == sizes[1..][..i - 1];
  }

  /** The i-th payload read starts after the first i payloads. */
  lemma {:induction false} ReadPayloadsAt(s: seq<byte>, pos: nat, sizes: seq<nat>, ps: seq<seq<byte>>, end: nat, i: nat)
    requires pos <= |s| && ReadPayloads(s, pos, sizes) == Ok((ps, end)) && i < |sizes|
    ensures var o := pos + TotalSize(sizes[..i]);
      o + sizes[i] <= |s| && s[o..o + sizes[i]] == ps[i]
    decreases i
  {
    var next := ReadPayloadsStep(s, pos, sizes, ps, end);
    if i > 0 {
      ReadPayloadsAt(s, next, sizes[1..], ps[1..], end, i - 1);
      TotalSizePrefix(sizes, i);
      assert sizes[1..][i - 1] == sizes[i];
    } else {
      assert sizes[..0] == [];
    }
  }

  // ---------------------------------------------------------------------
  // Columns

  lemma ZipColumns(names: seq<seq<byte>>, sizes: seq<nat>, payloads: seq<seq<byte>>)
    requires |names| == |sizes| == |payloads|
    ensures Names(Zip(names, sizes, payloads)) == names
    ensures Sizes(Zip(names, sizes, payloads)) == sizes
    ensures Payloads(Zip(names, sizes, payloads)) == payloads
  {
  }

  lemma ColumnsZip(es: seq<Entry>)
    ensures Zip(Names(es), Sizes(es), Payloads(es)) == es
  {
  }

  /** WellFormed, stated on the columns. */
  lemma WellFormedColumns(es: seq<Entry>)
    ensures WellFormed(es) <==>
      |es| < TwoTo16 && NamesFit(Names(es)) && PayloadsFit(Sizes(es), Payloads(es))
  {
    if NamesFit(Names(es)) && PayloadsFit(Sizes(es), Payloads(es)) {
      forall i | 0 <= i < |es|
        ensures |es[i].name| < TwoTo16 && es[i].size < SizeLimit && |es[i].payload| == es[i].size
      {
        assert Names(es)[i] == es[i].name && Sizes(es)[i] == es[i].size && Payloads(es)[i] == es[i].payload;
      }
    }
  }

  lemma EncodeSplit(es: seq<Entry>)
    ensures Encode(es) == KapdBytes + Encode(es)[4..]
    ensures Encode(es)[4..] ==
      U16Bytes(|es|) + SizesSection(Sizes(es)) + NamesSection(Names(es)) + Concat(Payloads(es))
  {
    var tail := U16Bytes(|es|) + SizesSection(Sizes(es)) + NamesSection(Names(es)) + Concat(Payloads(es));
    assert Encode(es) == KapdBytes + tail;
  }

  /** |Encode(es)| is the archive length whenever payloads match their sizes. */
  lemma EncodedLength(es: seq<Entry>)
    requires forall i :: 0 <= i < |es| ==> |es[i].payload| == es[i].size
    ensures |Encode(es)| == ArchiveLength(es)
  {
    NamesSectionLength(Names(es));
    ConcatLength(Payloads(es), Sizes(es));
  }

  lemma MagicBytes(s: seq<byte>)
    requires |s| >= 4
    ensures U32At(s, 0) == MagicLE <==> s[..4] == KapdBytes
    ensures U32At(s, 0) == MagicBE <==> s[..4] == DpakBytes
  {
    assert U32Bytes(MagicLE) == KapdBytes;
    assert U32Bytes(MagicBE) == DpakBytes;
    U32AtIff(s, 0, MagicLE);
    U32AtIff(s, 0, MagicBE);
  }

  // ---------------------------------------------------------------------
  // The reader against the writer

  /** An archive buffer: one of the two magics, then the image the packer
      writes for es after its magic, then anything. */
  predicate IsImageOf(s: seq<byte>, es: seq<Entry>) {
    WellFormed(es) && ArchiveLength(es) <= |s| &&
    (s[..4] == KapdBytes || s[..4] == DpakBytes) &&
    s[4..ArchiveLength(es)] == Encode(es)[4..]
  }

  /** Decoding succeeds with es exactly on the images of es. */
  lemma DecodeIff(s: seq<byte>, es: seq<Entry>)
    ensures Decode(s) == Ok(es) <==> IsImageOf(s, es)
  {
    if Decode(s) == Ok(es) {
      DecodeSound(s, es);
    }
    if IsImageOf(s, es) {
      DecodeComplete(s, es);
    }
  }

  /** The columns of a successful decode are the values read, section by
      section; namesEnd is where the payloads start. */
  lemma DecodeColumns(s: seq<byte>, es: seq<Entry>) returns (namesEnd: nat, end: nat)
    requires Decode(s) == Ok(es)
    ensures |s| >= 6 && IsDpakMagic(U32At(s, 0)) && U16At(s, 4) == |es| && 6 + 4 * |es| <= |s|
    ensures ReadSizes(s, 6, |es|) == Sizes(es)
    ensures 6 + 4 * |es| <= namesEnd <= |s|
    ensures ReadNames(s, 6 + 4 * |es|, |es|) == Ok((Names(es), namesEnd))
    ensures ReadPayloads(s, namesEnd, Sizes(es)) == Ok((Payloads(es), end))
  {
    var n := U16At(s, 4);
    assert Decode(s) == DecodeSections(s, n);
    var sizes := ReadSizes(s, 6, n);
    var rn := ReadNames(s, 6 + 4 * n, n);
    namesEnd := rn.value.1;
    var rp := ReadPayloads(s, namesEnd, sizes);
    end := rp.value.1;
    assert es == Zip(rn.value.0, sizes, rp.value.0);
    ZipColumns(rn.value.0, sizes, rp.value.0);
  }

  /** Decode succeeds once each of its reads does. */
  lemma DecodeOfColumns(s: seq<byte>, es: seq<Entry>, namesEnd: nat, end: nat)
    requires |s| >= 6 && IsDpakMagic(U32At(s, 0)) && U16At(s, 4) == |es| && 6 + 4 * |es| <= |s|
    requires ReadSizes(s, 6, |es|) == Sizes(es)
    requires 6 + 4 * |es| <= namesEnd <= |s|
    requires ReadNames(s, 6 + 4 * |es|, |es|) == Ok((Names(es), namesEnd))
    requires ReadPayloads(s, namesEnd, Sizes(es)) == Ok((Payloads(es), end))
    ensures Decode(s) == Ok(es)
  {
    assert Decode(s) == DecodeSections(s, |es|);
    ColumnsZip(es);
  }

  /** The magic, count and size sections under the header reads. */
  lemma HeaderSections(s: seq<byte>, n: nat)
    requires |s| >= 6 && IsDpakMagic(U32At(s, 0)) && U16At(s, 4) == n && 6 + 4 * n <= |s|
    ensures s[..4] == KapdBytes || s[..4] == DpakBytes
    ensures s[4..6] == U16Bytes(n) && s[6..6 + 4 * n] == SizesSection(ReadSizes(s, 6, n))
  {
    MagicBytes(s);
    U16BytesOfAt(s, 4);
    ReadSizesSound(s, 6, n);
  }

  /** The name section under the name read. */
  lemma ColumnNames(s: seq<byte>, es: seq<Entry>, namesEnd: nat)
    requires 6 + 4 * |es| <= |s|
    requires ReadNames(s, 6 + 4 * |es|, |es|) == Ok((Names(es), namesEnd))
    ensures s[6 + 4 * |es|..namesEnd] == NamesSection(Names(es))
  {
    ReadNamesSound(s, 6 + 4 * |es|, |es|, Names(es), namesEnd);
  }

  /** The payload section under the payload read. */
  lemma ColumnPayloads(s: seq<byte>, es: seq<Entry>, namesEnd: nat, end: nat)
    requires namesEnd <= |s|
    requires ReadPayloads(s, namesEnd, Sizes(es)) == Ok((Payloads(es), end))
    ensures s[namesEnd..end] == Concat(Payloads(es))
  {
    ReadPayloadsSound(s, namesEnd, Sizes(es), Payloads(es), end);
  }

  /** The reads of a successful decode end at the archive length, on a well-formed list. */
  lemma ColumnBounds(s: seq<byte>, es: seq<Entry>, namesEnd: nat, end: nat)
    requires |es| < TwoTo16 && 6 + 4 * |es| <= namesEnd <= |s|
    requires ReadNames(s, 6 + 4 * |es|, |es|) == Ok((Names(es), namesEnd))
    requires ReadPayloads(s, namesEnd, Sizes(es)) == Ok((Payloads(es), end))
    ensures WellFormed(es)
    ensures namesEnd == 6 + 4 * |es| + NamesLength(Names(es)) && end == ArchiveLength(es) <= |s|
  {
    ReadNamesLength(s, 6 + 4 * |es|, |es|, Names(es), namesEnd);
    ReadPayloadsLength(s, namesEnd, Sizes(es), Payloads(es), end);
    WellFormedColumns(es);
  }

  lemma DecodeSound(s: seq<byte>, es: seq<Entry>)
    requires Decode(s) == Ok(es)
    ensures IsImageOf(s, es)
  {
    var namesEnd, end := DecodeColumns(s, es);
    ImageOfColumns(s, es, namesEnd, end);
  }

  /** The reads of a successful decode lay out an image of what they read. */
  lemma ImageOfColumns(s: seq<byte>, es: seq<Entry>, namesEnd: nat, end: nat)
    requires |s| >= 6 && IsDpakMagic(U32At(s, 0)) && U16At(s, 4) == |es| && 6 + 4 * |es| <= |s|
    requires ReadSizes(s, 6, |es|) == Sizes(es)
    requires 6 + 4 * |es| <= namesEnd <= |s|
    requires ReadNames(s, 6 + 4 * |es|, |es|) == Ok((Names(es), namesEnd))
    requires ReadPayloads(s, namesEnd, Sizes(es)) == Ok((Payloads(es), end))
    ensures IsImageOf(s, es)
  {
    ColumnBounds(s, es, namesEnd, end);
    HeaderSections(s, |es|);
    ColumnNames(s, es, namesEnd);
    ColumnPayloads(s, es, namesEnd, end);
    ImageOfSections(s, es, namesEnd);
  }

  /** An image is its magic and the four sections, each in its place. */
  lemma ImageOfSections(s: seq<byte>, es: seq<Entry>, namesEnd: nat)
    requires WellFormed(es) && 6 + 4 * |es| <= namesEnd <= ArchiveLength(es) <= |s|
    requires s[..4] == KapdBytes || s[..4] == DpakBytes
    requires s[4..6] == U16Bytes(|es|) && s[6..6 + 4 * |es|] == SizesSection(Sizes(es))
    requires s[6 + 4 * |es|..namesEnd] == NamesSection(Names(es))
    requires s[namesEnd..ArchiveLength(es)] == Concat(Payloads(es))
    ensures IsImageOf(s, es)
  {
    var a, b, c, d := U16Bytes(|es|), SizesSection(Sizes(es)), NamesSection(Names(es)), Concat(Payloads(es));
    SliceJoin4(s, 4, 6, 6 + 4 * |es|, namesEnd, ArchiveLength(es), a, b, c, d);
    EncodeSplit(es);
  }

  /** The four parts of an image after its magic. */
  lemma ImageSections(s: seq<byte>, es: seq<Entry>)
    requires IsImageOf(s, es)
    ensures var namesEnd := 6 + 4 * |es| + |NamesSection(Names(es))|;
      namesEnd + |Concat(Payloads(es))| == ArchiveLength(es) &&
      s[4..6] == U16Bytes(|es|) && s[6..6 + 4 * |es|] == SizesSection(Sizes(es)) &&
      s[6 + 4 * |es|..namesEnd] == NamesSection(Names(es)) &&
      s[namesEnd..ArchiveLength(es)] == Concat(Payloads(es))
  {
    var a, b, c, d := U16Bytes(|es|), SizesSection(Sizes(es)), NamesSection(Names(es)), Concat(Payloads(es));
    var namesEnd := 6 + 4 * |es| + |c|;
    EncodedLength(es);
    EncodeSplit(es);
    SliceParts4(s, 4, 6, 6 + 4 * |es|, namesEnd, ArchiveLength(es), a, b, c, d);
  }

  /** The magic, the count and the sizes of an image read back as written. */
  lemma ImageHeader(s: seq<byte>, es: seq<Entry>)
    requires IsImageOf(s, es)
    ensures 6 + 4 * |es| <= |s| && IsDpakMagic(U32At(s, 0)) && U16At(s, 4) == |es|
    ensures ReadSizes(s, 6, |es|) == Sizes(es)
  {
    ImageSections(s, es);
    WellFormedColumns(es);
    assert IsDpakMagic(U32At(s, 0)) by {
      MagicBytes(s);
    }
    assert U16At(s, 4) == |es| by {
      U16AtOfBytes(s, 4, |es|);
    }
    ReadSizesComplete(s, 6, Sizes(es));
  }

  /** The name section of an image reads back as its names. */
  lemma ImageNames(s: seq<byte>, es: seq<Entry>, namesEnd: nat)
    requires IsImageOf(s, es) && namesEnd == 6 + 4 * |es| + |NamesSection(Names(es))|
    ensures namesEnd <= |s| && ReadNames(s, 6 + 4 * |es|, |es|) == Ok((Names(es), namesEnd))
  {
    ImageSections(s, es);
    WellFormedColumns(es);
    ReadNamesComplete(s, 6 + 4 * |es|, |es|, Names(es), namesEnd);
  }

  /** The payload section of an image reads back as its payloads. */
  lemma ImagePayloads(s: seq<byte>, es: seq<Entry>, namesEnd: nat)
    requires IsImageOf(s, es) && namesEnd == 6 + 4 * |es| + |NamesSection(Names(es))|
    ensures ReadPayloads(s, namesEnd, Sizes(es)) == Ok((Payloads(es), ArchiveLength(es)))
  {
    ImageSections(s, es);
    WellFormedColumns(es);
    ReadPayloadsComplete(s, namesEnd, Sizes(es), Payloads(es), ArchiveLength(es));
  }

  lemma DecodeComplete(s: seq<byte>, es: seq<Entry>)
    requires IsImageOf(s, es)
    ensures Decode(s) == Ok(es)
  {
    var namesEnd: nat := 6 + 4 * |es| + |NamesSection(Names(es))|;
    ImageHeader(s, es);
    ImageNames(s, es, namesEnd);
    ImagePayloads(s, es, namesEnd);
    DecodeOfColumns(s, es, namesEnd, ArchiveLength(es));
  }

  /** Round trip: the extractor reads back exactly the entries the packer
      wrote, in order, whatever follows the archive. */
  lemma RoundTrip(es: seq<Entry>, trailing: seq<byte>)
    requires WellFormed(es)
    ensures Decode(Encode(es) + trailing) == Ok(es)
  {
    var s := Encode(es) + trailing;
    EncodedLength(es);
    EncodeSplit(es);
    assert s[..4] == KapdBytes;
    assert s[4..ArchiveLength(es)] == Encode(es)[4..];
    DecodeComplete(s, es);
  }

  /** A decoded archive is the packer's image of its entries apart from the
      magic: decoding is a left inverse of encoding on its whole domain. */
  lemma DecodeThenEncode(s: seq<byte>, es: seq<Entry>)
    requires Decode(s) == Ok(es)
    ensures WellFormed(es) && ArchiveLength(es) <= |s|
    ensures s[..ArchiveLength(es)] == s[..4] + Encode(es)[4..]
    ensures s[..4] == KapdBytes ==> s[..ArchiveLength(es)] == Encode(es)
  {
    DecodeSound(s, es);
    ImagePrefix(s, es);
  }

  /** An image up to the archive length is its magic and the encoding after it. */
  lemma ImagePrefix(s: seq<byte>, es: seq<Entry>)
    requires IsImageOf(s, es)
    ensures s[..ArchiveLength(es)] == s[..4] + Encode(es)[4..]
    ensures s[..4] == KapdBytes ==> s[..ArchiveLength(es)] == Encode(es)
  {
    EncodeSplit(es);
    assert s[..ArchiveLength(es)] == s[..4] + s[4..ArchiveLength(es)];
  }

  /** Consumption: the reader uses exactly the first ArchiveLength(es) bytes;
      the bytes after the payloads are never read. */
  lemma TrailingBytesNeverRead(s: seq<byte>, es: seq<Entry>, t: seq<byte>)
    requires Decode(s) == Ok(es)
    ensures ArchiveLength(es) <= |s|
    ensures Decode(s[..ArchiveLength(es)] + t) == Ok(es)
  {
    DecodeSound(s, es);
    var L := ArchiveLength(es);
    var s' := s[..L] + t;
    assert s'[..4] == s[..4];
    assert s'[4..L] == s[4..L];
    DecodeComplete(s', es);
  }

  /** Magic acceptance: with four bytes present, the reader rejects the magic
      exactly when they are neither "KAPD" nor "DPAK". */
  lemma MagicAcceptance(s: seq<byte>)
    requires |s| >= 4
    ensures Decode(s) == Err(BadMagic) <==> s[..4] != KapdBytes && s[..4] != DpakBytes
  {
    MagicBytes(s);
  }

  // ---------------------------------------------------------------------
  // Positional correspondence

  /** The name read of a successful decode. */
  lemma DecodedNames(s: seq<byte>, es: seq<Entry>) returns (namesEnd: nat)
    requires Decode(s) == Ok(es)
    ensures 6 + 4 * |es| <= namesEnd <= |s|
    ensures ReadNames(s, 6 + 4 * |es|, |es|) == Ok((Names(es), namesEnd))
  {
    var end;
    namesEnd, end := DecodeColumns(s, es);
  }

  /** The payload read of a successful decode, starting right after the names. */
  lemma DecodedPayloads(s: seq<byte>, es: seq<Entry>) returns (namesEnd: nat, end: nat)
    requires Decode(s) == Ok(es)
    ensures namesEnd == 6 + 4 * |es| + NamesLength(Names(es)) <= |s|
    ensures ReadPayloads(s, namesEnd, Sizes(es)) == Ok((Payloads(es), end))
  {
    namesEnd, end := DecodeColumns(s, es);
    ColumnBounds(s, es, namesEnd, end);
  }

  /** Entry i carries the i-th size field. */
  lemma DecodedSizeAt(s: seq<byte>, es: seq<Entry>, i: nat)
    requires Decode(s) == Ok(es) && i < |es|
    ensures 6 + 4 * i + 4 <= |s| && es[i].size == U32At(s, 6 + 4 * i)
  {
    var namesEnd, end := DecodeColumns(s, es);
    ReadSizesAt(s, 6, |es|, i);
    assert Sizes(es)[i] == es[i].size;
  }

  /** Entry i carries the i-th length-prefixed name. */
  lemma DecodedNameAt(s: seq<byte>, es: seq<Entry>, i: nat)
    requires Decode(s) == Ok(es) && i < |es|
    ensures NameOffset(es, i) + 2 + |es[i].name| <= |s|
    ensures U16At(s, NameOffset(es, i)) == |es[i].name|
    ensures s[NameOffset(es, i) + 2..NameOffset(es, i) + 2 + |es[i].name|] == es[i].name
  {
    var namesEnd := DecodedNames(s, es);
    NameAt(s, es, namesEnd, i);
  }

  lemma NameAt(s: seq<byte>, es: seq<Entry>, namesEnd: nat, i: nat)
    requires 6 + 4 * |es| <= |s| && i < |es|
    requires ReadNames(s, 6 + 4 * |es|, |es|) == Ok((Names(es), namesEnd))
    ensures NameFieldAt(s, NameOffset(es, i), es[i].name)
  {
    var names := Names(es);
    var o := ReadNamesAt(s, 6 + 4 * |es|, |es|, names, namesEnd, i);
    assert o == NameOffset(es, i);
    assert names[i] == es[i].name;
  }

  /** Entry i carries the payload slice of its size at its payload offset. */
  lemma DecodedPayloadAt(s: seq<byte>, es: seq<Entry>, i: nat)
    requires Decode(s) == Ok(es) && i < |es|
    ensures PayloadOffset(es, i) + es[i].size <= |s|
    ensures s[PayloadOffset(es, i)..PayloadOffset(es, i) + es[i].size] == es[i].payload
  {
    var namesEnd, end := DecodedPayloads(s, es);
    PayloadAt(s, es, namesEnd, end, i);
  }

  lemma PayloadAt(s: seq<byte>, es: seq<Entry>, namesEnd: nat, end: nat, i: nat)
    requires namesEnd == 6 + 4 * |es| + NamesLength(Names(es)) <= |s| && i < |es|
    requires ReadPayloads(s, namesEnd, Sizes(es)) == Ok((Payloads(es), end))
    ensures PayloadOffset(es, i) + es[i].size <= |s|
    ensures s[PayloadOffset(es, i)..PayloadOffset(es, i) + es[i].size] == es[i].payload
  {
    ReadPayloadsAt(s, namesEnd, Sizes(es), Payloads(es), end, i);
    assert Sizes(es)[i] == es[i].size && Payloads(es)[i] == es[i].payload;
  }

  /** Payloads follow the name section back to back, in entry order. */
  lemma PayloadOffsets(es: seq<Entry>, i: nat)
    requires i < |es|
    ensures PayloadOffset(es, 0) == NameOffset(es, |es|)
    ensures PayloadOffset(es, i + 1) == PayloadOffset(es, i) + es[i].size
    ensures PayloadOffset(es, |es|) == ArchiveLength(es)
  {
    var sizes := Sizes(es);
    assert Names(es)[..|es|] == Names(es);
    assert sizes[..0] == [] && sizes[..|es|] == sizes;
    assert sizes[..i + 1] == sizes[..i] + [sizes[i]];
    TotalSizeAppend(sizes[..i], [sizes[i]]);
  }

  /** Encoder layout: "KAPD", the u16 count, and exactly ArchiveLength bytes. */
  lemma EncodeHeader(es: seq<Entry>)
    requires WellFormed(es)
    ensures |Encode(es)| == ArchiveLength(es)
    ensures Encode(es)[..4] == KapdBytes && U32At(Encode(es), 0) == MagicLE
    ensures U16At(Encode(es), 4) == |es|
  {
    var e := Encode(es);
    EncodedLength(es);
    EncodeSplit(es);
    MagicBytes(e);
    assert e[4..6] == U16Bytes(|es|);
    U16AtOfBytes(e, 4, |es|);
  }

  /** Encoder layout: the i-th size at 6 + 4i, the i-th length-prefixed name
      and the i-th payload at their offsets. */
  lemma EncodeEntryAt(es: seq<Entry>, i: nat)
    requires WellFormed(es) && i < |es|
    ensures 6 + 4 * i + 4 <= |Encode(es)| && U32At(Encode(es), 6 + 4 * i) == es[i].size
    ensures NameOffset(es, i) + 2 + |es[i].name| <= |Encode(es)|
    ensures U16At(Encode(es), NameOffset(es, i)) == |es[i].name|
    ensures Encode(es)[NameOffset(es, i) + 2..NameOffset(es, i) + 2 + |es[i].name|] == es[i].name
    ensures PayloadOffset(es, i) + es[i].size <= |Encode(es)|
    ensures Encode(es)[PayloadOffset(es, i)..PayloadOffset(es, i) + es[i].size] == es[i].payload
  {
    var e := Encode(es);
    RoundTrip(es, []);
    assert e + [] == e;
    DecodedSizeAt(e, es, i);
    DecodedNameAt(e, es, i);
    DecodedPayloadAt(e, es, i);
  }
}
