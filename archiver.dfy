/** The extractor and the packer as the program runs them: a read cursor
    walking the archive buffer section by section, and an output buffer the
    packer appends to, each proved to compute the format's Decode and Encode. */
module Archiver {
  import opened LittleEndian
  import opened DpakFormat
  import opened DpakProperties
  import opened Paths

  /** One file the extractor writes: the directory it creates first, the
      path it opens, and the bytes it writes there. */
  datatype Output = Output(subdirectory: string, path: string, contents: seq<byte>)

  /** A stored name as the `std::string` built from its bytes. */
  function AsText(name: seq<byte>): (r: string)
    ensures |r| == |name|
  {
    seq(|name|, i requires 0 <= i < |name| => name[i] as char)
  }

  function EntryOutput(dir: string, e: Entry): Output {
    Output(EntrySubdirectory(dir, AsText(e.name)), EntryFilePath(dir, AsText(e.name)), e.payload)
  }

  function Outputs(dir: string, es: seq<Entry>): (r: seq<Output>)
    ensures |r| == |es|
  {
    seq(|es|, i requires 0 <= i < |es| => EntryOutput(dir, es[i]))
  }

  /** What extracting the archive `filename` whose bytes are s writes: one
      output per decoded entry, in order, under the extraction directory. */
  function ExtractionPlan(filename: string, s: seq<byte>): Result<seq<Output>> {
    Plan(ExtractionDirectory(filename), Decode(s))
  }

  function Plan(dir: string, d: Result<seq<Entry>>): Result<seq<Output>> {
    match d
    case Err(e) => Err(e)
    case Ok(es) => Ok(Outputs(dir, es))
  }

  /** A read result with `front` put before what it read. */
  function Prefixed(front: seq<seq<byte>>, r: Result<(seq<seq<byte>>, nat)>): Result<(seq<seq<byte>>, nat)> {
    if r.Err? then r else Ok((front + r.value.0, r.value.1))
  }

  lemma PrefixedNothing(r: Result<(seq<seq<byte>>, nat)>)
    ensures Prefixed([], r) == r
  {
    if r.Ok? {
      assert [] + r.value.0 == r.value.0;
    }
  }

  lemma PrefixedTwice(a: seq<seq<byte>>, x: seq<byte>, r: Result<(seq<seq<byte>>, nat)>)
    ensures Prefixed(a, Prefixed([x], r)) == Prefixed(a + [x], r)
  {
    if r.Ok? {
      assert a + ([x] + r.value.0) == (a + [x]) + r.value.0;
    }
  }

  // ---------------------------------------------------------------------
  // Extraction

  /** `std::replace` over the characters of a path, in place. */
  method ReplaceInPlace(a: array<char>, from: char, to: char)
    modifies a
    ensures a[..] == Replaced(old(a[..]), from, to)
  {
    var i := 0;
    while i < a.Length
      invariant 0 <= i <= a.Length
      invariant forall k :: 0 <= k < i ==> a[k] == if old(a[k]) == from then to else old(a[k])
      invariant forall k :: i <= k < a.Length ==> a[k] == old(a[k])
    {
      if a[i] == from {
        a[i] := to;
      }
      i := i + 1;
    }
  }

  /** The size loop: n u32 fields from the cursor, pushed in order. */
  method ReadSizeFields(s: seq<byte>, pos: nat, n: nat) returns (sizes: seq<nat>, next: nat)
    requires pos + 4 * n <= |s|
    ensures sizes == ReadSizes(s, pos, n) && next == pos + 4 * n
  {
    sizes, next := [], pos;
    var i := 0;
    while i < n
      invariant 0 <= i <= n && next == pos + 4 * i && |sizes| == i
      invariant forall k :: 0 <= k < i ==> sizes[k] == U32At(s, pos + 4 * k)
    {
      sizes := sizes + [U32At(s, next)];
      next := next + 4;
      i := i + 1;
    }
    forall k | 0 <= k < n
      ensures sizes[k] == ReadSizes(s, pos, n)[k]
    {
      ReadSizesAt(s, pos, n, k);
    }
  }

  /** The name loop: n length-prefixed names from the cursor. */
  method ReadNameFields(s: seq<byte>, pos: nat, n: nat) returns (r: Result<(seq<seq<byte>>, nat)>)
    requires pos <= |s|
    ensures r == ReadNames(s, pos, n)
  {
    var ids: seq<seq<byte>> := [];
    var cur: nat := pos;
    PrefixedNothing(ReadNames(s, pos, n));
    var i := 0;
    while i < n
      invariant 0 <= i <= n && cur <= |s|
      invariant ReadNames(s, pos, n) == Prefixed(ids, ReadNames(s, cur, n - i))
    {
      if |s| < cur + 2 {
        return Err(Truncated);
      }
      var len := U16At(s, cur);
      if |s| < cur + 2 + len {
        return Err(Truncated);
      }
      var id := s[cur + 2..cur + 2 + len];
      PrefixedTwice(ids, id, ReadNames(s, cur + 2 + len, n - i - 1));
      ids := ids + [id];
      cur := cur + 2 + len;
      i := i + 1;
    }
    assert ids + [] == ids;
    r := Ok((ids, cur));
  }

  /** The output the extractor builds for the entry at the cursor: the path,
      the path with `/` replaced in place, the directory to create, and the
      payload slice. */
  method EntryAt(s: seq<byte>, cur: nat, dir: string, id: seq<byte>, size: nat) returns (out: Output)
    requires cur + size <= |s|
    ensures out == EntryOutput(dir, Entry(id, size, s[cur..cur + size]))
  {
    var path := EntryFilePath(dir, AsText(id));
    var a := new char[|path|](k requires 0 <= k < |path| => path[k]);
    assert a[..] == path;
    ReplaceInPlace(a, '/', '\\');
    var subdirectory := ParentPrefix(a[..]);
    out := Output(subdirectory, path, s[cur..cur + size]);
  }

  /** One step of a payload read that succeeds. */
  lemma PayloadStep(s: seq<byte>, cur: nat, rest: seq<nat>, size: nat, tail: seq<nat>)
    requires rest != [] && rest[0] == size && rest[1..] == tail
    requires size < SizeLimit && cur + size <= |s|
    ensures ReadPayloads(s, cur, rest) == Prefixed([s[cur..cur + size]], ReadPayloads(s, cur + size, tail))
  {
  }

  /** A payload read whose first size is too big, or runs past the end, fails at once. */
  lemma PayloadFails(s: seq<byte>, cur: nat, rest: seq<nat>)
    requires cur <= |s| && rest != [] && (rest[0] >= SizeLimit || |s| < cur + rest[0])
    ensures ReadPayloads(s, cur, rest) == Err(if rest[0] >= SizeLimit then NegativeSize else Truncated)
  {
  }

  /** The entry loop's invariant after i entries: what is left to read from
      the cursor completes the payload read, and each output so far is the
      output of its entry. */
  ghost predicate Progress(s: seq<byte>, pos: nat, dir: string, ids: seq<seq<byte>>, sizes: seq<nat>,
                           payloads: seq<seq<byte>>, outs: seq<Output>, cur: nat, i: nat)
  {
    pos <= |s| && cur <= |s| && i <= |sizes| == |ids| && |payloads| == i && |outs| == i &&
    ReadPayloads(s, pos, sizes) == Prefixed(payloads, ReadPayloads(s, cur, sizes[i..])) &&
    forall k :: 0 <= k < i ==> outs[k] == EntryOutput(dir, Entry(ids[k], sizes[k], payloads[k]))
  }

  lemma ProgressStart(s: seq<byte>, pos: nat, dir: string, ids: seq<seq<byte>>, sizes: seq<nat>)
    requires pos <= |s| && |ids| == |sizes|
    ensures Progress(s, pos, dir, ids, sizes, [], [], pos, 0)
  {
    PrefixedNothing(ReadPayloads(s, pos, sizes));
    assert sizes[0..] == sizes;
  }

  /** The invariant carried over one successful read. */
  lemma ProgressStep(s: seq<byte>, pos: nat, dir: string, ids: seq<seq<byte>>, sizes: seq<nat>,
                     payloads: seq<seq<byte>>, outs: seq<Output>, cur: nat, i: nat, out: Output)
    requires Progress(s, pos, dir, ids, sizes, payloads, outs, cur, i)
    requires i < |sizes| && sizes[i] < SizeLimit && cur + sizes[i] <= |s|
    requires out == EntryOutput(dir, Entry(ids[i], sizes[i], s[cur..cur + sizes[i]]))
    ensures Progress(s, pos, dir, ids, sizes, payloads + [s[cur..cur + sizes[i]]], outs + [out], cur + sizes[i], i + 1)
  {
    var payload := s[cur..cur + sizes[i]];
    PayloadStep(s, cur, sizes[i..], sizes[i], sizes[i + 1..]);
    PrefixedTwice(payloads, payload, ReadPayloads(s, cur + sizes[i], sizes[i + 1..]));
  }

  /** The loop stopping early is the payload read failing. */
  lemma ProgressStop(s: seq<byte>, pos: nat, dir: string, ids: seq<seq<byte>>, sizes: seq<nat>,
                     payloads: seq<seq<byte>>, outs: seq<Output>, cur: nat, i: nat)
    requires Progress(s, pos, dir, ids, sizes, payloads, outs, cur, i)
    requires i < |sizes| && (sizes[i] >= SizeLimit || |s| < cur + sizes[i])
    ensures ReadPayloads(s, pos, sizes) == Err(if sizes[i] >= SizeLimit then NegativeSize else Truncated)
  {
    PayloadFails(s, cur, sizes[i..]);
  }

  /** The loop running to the end is the payload read succeeding, with the
      outputs of all the entries. */
  lemma ProgressDone(s: seq<byte>, pos: nat, dir: string, ids: seq<seq<byte>>, sizes: seq<nat>,
                     payloads: seq<seq<byte>>, outs: seq<Output>, cur: nat)
    requires Progress(s, pos, dir, ids, sizes, payloads, outs, cur, |sizes|)
    ensures ReadPayloads(s, pos, sizes) == Ok((payloads, cur))
    ensures outs == Outputs(dir, Zip(ids, sizes, payloads))
  {
    assert sizes[|sizes|..] == [];
    assert payloads + [] == payloads;
  }

  /** The entry loop: for each entry, its output, reading payloads in order
      from the cursor. */
  method WriteEntries(s: seq<byte>, pos: nat, dir: string, ids: seq<seq<byte>>, sizes: seq<nat>)
    returns (r: Result<seq<Output>>)
    requires pos <= |s| && |ids| == |sizes|
    ensures ReadPayloads(s, pos, sizes).Err? ==> r == Err(ReadPayloads(s, pos, sizes).error)
    ensures ReadPayloads(s, pos, sizes).Ok? ==>
      r == Ok(Outputs(dir, Zip(ids, sizes, ReadPayloads(s, pos, sizes).value.0)))
  {
    var payloads: seq<seq<byte>> := [];
    var outs: seq<Output> := [];
    var cur: nat := pos;
    var i: nat := 0;
    ProgressStart(s, pos, dir, ids, sizes);
    while i < |sizes|
      invariant Progress(s, pos, dir, ids, sizes, payloads, outs, cur, i)
      decreases |sizes| - i
    {
      if sizes[i] >= SizeLimit || |s| < cur + sizes[i] {
        ProgressStop(s, pos, dir, ids, sizes, payloads, outs, cur, i);
        return Err(if sizes[i] >= SizeLimit then NegativeSize else Truncated);
      }
      var payload := s[cur..cur + sizes[i]];
      var out := EntryAt(s, cur, dir, ids[i], sizes[i]);
      ProgressStep(s, pos, dir, ids, sizes, payloads, outs, cur, i, out);
      payloads := payloads + [payload];
      outs := outs + [out];
      cur := cur + sizes[i];
      i := i + 1;
    }
    ProgressDone(s, pos, dir, ids, sizes, payloads, outs, cur);
    r := Ok(outs);
  }

  /** ExtractDPAK on the bytes of the file `filename`. */
  method ExtractDpak(filename: string, file: seq<byte>) returns (r: Result<seq<Output>>)
    ensures r == ExtractionPlan(filename, file)
  {
    if |file| < 4 {
      return Err(Truncated);
    }
    var magic := U32At(file, 0);
    if !(magic == MagicLE || magic == MagicBE) {
      return Err(BadMagic);
    }
    if |file| < 6 {
      return Err(Truncated);
    }
    var count := U16At(file, 4);
    assert Decode(file) == DecodeSections(file, count);
    r := ExtractSections(filename, file, count);
  }

  /** The three loops of ExtractDPAK after the count. */
  method ExtractSections(filename: string, file: seq<byte>, count: nat) returns (r: Result<seq<Output>>)
    requires 6 <= |file|
    ensures r == Plan(ExtractionDirectory(filename), DecodeSections(file, count))
  {
    if |file| < 6 + 4 * count {
      return Err(Truncated);
    }
    var sizes, cur := ReadSizeFields(file, 6, count);
    var ids := ReadNameFields(file, cur, count);
    if ids.Err? {
      assert DecodeSections(file, count) == Err(ids.error);
      return Err(ids.error);
    }
    var dir := ExtractionDirectory(filename);
    r := WriteEntries(file, ids.value.1, dir, ids.value.0, sizes);
    ghost var payloads := ReadPayloads(file, ids.value.1, sizes);
    if payloads.Err? {
      assert DecodeSections(file, count) == Err(payloads.error);
    } else {
      assert DecodeSections(file, count) == Ok(Zip(ids.value.0, sizes, payloads.value.0));
    }
  }

  // ---------------------------------------------------------------------
  // Packing

  /** The directory walk: the count, and the size and name of each entry, in order. */
  method CollectEntries(entries: seq<Entry>) returns (count: nat, sizes: seq<nat>, names: seq<seq<byte>>)
    ensures count == |entries| && sizes == Sizes(entries) && names == Names(entries)
  {
    count, sizes, names := 0, [], [];
    while count < |entries|
      invariant count <= |entries| && |sizes| == count && |names| == count
      invariant forall k :: 0 <= k < count ==> sizes[k] == entries[k].size && names[k] == entries[k].name
    {
      sizes := sizes + [entries[count].size];
      names := names + [entries[count].name];
      count := count + 1;
    }
  }

  /** One more size field written after the first i. */
  lemma SizesStep(archive: seq<byte>, r: seq<byte>, sizes: seq<nat>, i: nat)
    requires i < |sizes| && r == archive + SizesSection(sizes[..i])
    ensures r + U32Bytes(sizes[i]) == archive + SizesSection(sizes[..i + 1])
  {
    SizesSectionAppend(sizes[..i], [sizes[i]]);
    assert sizes[..i + 1] == sizes[..i] + [sizes[i]];
    assert SizesSection([sizes[i]]) == U32Bytes(sizes[i]) + SizesSection([]);
  }

  /** One more name field written after the first i. */
  lemma NamesStep(archive: seq<byte>, r: seq<byte>, names: seq<seq<byte>>, i: nat)
    requires i < |names| && r == archive + NamesSection(names[..i])
    ensures r + U16Bytes(|names[i]|) + names[i] == archive + NamesSection(names[..i + 1])
  {
    NamesSectionAppend(names[..i], [names[i]]);
    assert names[..i + 1] == names[..i] + [names[i]];
    assert NamesSection([names[i]]) == U16Bytes(|names[i]|) + names[i] + NamesSection([]);
  }

  /** One more payload written after the first i. */
  lemma PayloadsStep(archive: seq<byte>, r: seq<byte>, payloads: seq<seq<byte>>, i: nat)
    requires i < |payloads| && r == archive + Concat(payloads[..i])
    ensures r + payloads[i] == archive + Concat(payloads[..i + 1])
  {
    ConcatAppend(payloads[..i], [payloads[i]]);
    assert payloads[..i + 1] == payloads[..i] + [payloads[i]];
    assert Concat([payloads[i]]) == payloads[i] + Concat([]);
  }

  /** The size loop of the packer: one u32 per entry. */
  method WriteSizeFields(archive: seq<byte>, sizes: seq<nat>) returns (r: seq<byte>)
    ensures r == archive + SizesSection(sizes)
  {
    r := archive;
    var i := 0;
    while i < |sizes|
      invariant i <= |sizes| && r == archive + SizesSection(sizes[..i])
    {
      SizesStep(archive, r, sizes, i);
      r := r + U32Bytes(sizes[i]);
      i := i + 1;
    }
    assert sizes[..i] == sizes;
  }

  /** The name loop of the packer: a u16 length, then the name. */
  method WriteNameFields(archive: seq<byte>, names: seq<seq<byte>>) returns (r: seq<byte>)
    ensures r == archive + NamesSection(names)
  {
    r := archive;
    var i := 0;
    while i < |names|
      invariant i <= |names| && r == archive + NamesSection(names[..i])
    {
      NamesStep(archive, r, names, i);
      r := r + U16Bytes(|names[i]|) + names[i];
      i := i + 1;
    }
    assert names[..i] == names;
  }

  /** The payload loop of the packer: each entry's bytes, in order. */
  method WritePayloads(archive: seq<byte>, payloads: seq<seq<byte>>) returns (r: seq<byte>)
    ensures r == archive + Concat(payloads)
  {
    r := archive;
    var i := 0;
    while i < |payloads|
      invariant i <= |payloads| && r == archive + Concat(payloads[..i])
    {
      PayloadsStep(archive, r, payloads, i);
      r := r + payloads[i];
      i := i + 1;
    }
    assert payloads[..i] == payloads;
  }

  /** PackageDPAK over an enumerated folder: the archive path beside the
      folder, and the bytes written there. */
  method PackageDpak(folder: string, entries: seq<Entry>) returns (path: string, archive: seq<byte>)
    requires WellFormed(entries)
    ensures path == PackOutputPath(folder)
    ensures archive == Encode(entries)
  {
    path := PackOutputPath(folder);
    var count, sizes, names := CollectEntries(entries);
    archive := KapdBytes + U16Bytes(count);
    archive := WriteSizeFields(archive, sizes);
    archive := WriteNameFields(archive, names);
    archive := WritePayloads(archive, Payloads(entries));
  }

  // ---------------------------------------------------------------------
  // Extracting what was packed

  /** Extracting a packed archive writes each entry's payload at the
      directory, `\` and its name, in entry order. */
  lemma PackThenExtract(filename: string, es: seq<Entry>)
    requires WellFormed(es)
    ensures var dir := ExtractionDirectory(filename);
      ExtractionPlan(filename, Encode(es)) == Ok(Outputs(dir, es)) &&
      forall i :: 0 <= i < |es| ==>
        Outputs(dir, es)[i].path == dir + "\\" + AsText(es[i].name) &&
        Outputs(dir, es)[i].contents == es[i].payload
  {
    RoundTrip(es, []);
    assert Encode(es) + [] == Encode(es);
  }

  /** With a magic other than "KAPD" or "DPAK" the extractor writes nothing. */
  lemma BadMagicWritesNothing(filename: string, s: seq<byte>)
    requires |s| >= 4 && s[..4] != KapdBytes && s[..4] != DpakBytes
    ensures ExtractionPlan(filename, s) == Err(BadMagic)
  {
    MagicAcceptance(s);
  }
}
