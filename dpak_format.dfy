/** The DPAK container: its entries, the byte image the packer writes, and the
    reading the extractor performs, as functions on byte sequences.

    Layout (all integers little-endian, no padding):
      "KAPD" | u16 count | count x u32 size | count x (u16 length, name bytes) | payloads
*/
module DpakFormat {
  import opened LittleEndian

  /** One stored file: its relative path as raw bytes, its recorded size and
      its contents. */
  datatype Entry = Entry(name: seq<byte>, size: nat, payload: seq<byte>)

  /** Why reading an archive stops. */
  datatype Error =
    | Truncated     // a read would run past the end of the buffer
    | BadMagic      // the first four bytes are neither "KAPD" nor "DPAK"
    | NegativeSize  // a size field of 2^31 or more, negative once kept in an `int`

  datatype Result<T> = Ok(value: T) | Err(error: Error)

  /** The magic the packer writes: "KAPD", which reads as MagicLE. */
  const KapdBytes: seq<byte> := [0x4B, 0x41, 0x50, 0x44]
  /** The byte-reversed magic: "DPAK", which reads as MagicBE. */
  const DpakBytes: seq<byte> := [0x44, 0x50, 0x41, 0x4B]
  const MagicLE: nat := 1146110283
  const MagicBE: nat := 1262571588

  /** Sizes travel through a signed 32-bit `int` on both sides. */
  const SizeLimit: nat := 0x8000_0000

  predicate IsDpakMagic(m: nat) {
    m == MagicLE || m == MagicBE
  }

  /** The limits the format imposes: a u16 count, u16 name lengths, sizes that
      fit an `int`, and payloads as long as their recorded size. */
  predicate WellFormed(es: seq<Entry>) {
    |es| < TwoTo16 &&
    forall i :: 0 <= i < |es| ==>
      |es[i].name| < TwoTo16 && es[i].size < SizeLimit && |es[i].payload| == es[i].size
  }

  // ---------------------------------------------------------------------
  // Columns of an entry list and the reverse

  function Sizes(es: seq<Entry>): (r: seq<nat>)
    ensures |r| == |es|
  {
    seq(|es|, i requires 0 <= i < |es| => es[i].size)
  }

  function Names(es: seq<Entry>): (r: seq<seq<byte>>)
    ensures |r| == |es|
  {
    seq(|es|, i requires 0 <= i < |es| => es[i].name)
  }

  function Payloads(es: seq<Entry>): (r: seq<seq<byte>>)
    ensures |r| == |es|
  {
    seq(|es|, i requires 0 <= i < |es| => es[i].payload)
  }

  /** Pairs the i-th name, the i-th size and the i-th payload. */
  function Zip(names: seq<seq<byte>>, sizes: seq<nat>, payloads: seq<seq<byte>>): (r: seq<Entry>)
    requires |names| == |sizes| == |payloads|
    ensures |r| == |sizes|
  {
    seq(|sizes|, i requires 0 <= i < |sizes| => Entry(names[i], sizes[i], payloads[i]))
  }

  // ---------------------------------------------------------------------
  // Sections of the image

  function SizesSection(sizes: seq<nat>): (r: seq<byte>)
    ensures |r| == 4 * |sizes|
  {
    if sizes == [] then [] else U32Bytes(sizes[0]) + SizesSection(sizes[1..])
  }

  function NamesSection(names: seq<seq<byte>>): seq<byte> {
    if names == [] then [] else U16Bytes(|names[0]|) + names[0] + NamesSection(names[1..])
  }

  function Concat(ps: seq<seq<byte>>): seq<byte> {
    if ps == [] then [] else ps[0] + Concat(ps[1..])
  }

  /** Bytes of the name section: a 2-byte length and the name, per entry. */
  function NamesLength(names: seq<seq<byte>>): nat {
    if names == [] then 0 else 2 + |names[0]| + NamesLength(names[1..])
  }

  function TotalSize(sizes: seq<nat>): nat {
    if sizes == [] then 0 else sizes[0] + TotalSize(sizes[1..])
  }

  /** 6 + 4N + sum(2 + len_i) + sum(size_i). */
  function ArchiveLength(es: seq<Entry>): nat {
    6 + 4 * |es| + NamesLength(Names(es)) + TotalSize(Sizes(es))
  }

  /** The archive image the packer writes for an ordered entry list. */
  function Encode(es: seq<Entry>): seq<byte> {
    KapdBytes + U16Bytes(|es|) + SizesSection(Sizes(es)) + NamesSection(Names(es)) + Concat(Payloads(es))
  }

  // ---------------------------------------------------------------------
  // Reading, with a cursor

  /** The size section: n u32 values from position pos, read one after the other. */
  function ReadSizes(s: seq<byte>, pos: nat, n: nat): (r: seq<nat>)
    requires pos + 4 * n <= |s|
    ensures |r| == n && forall i :: 0 <= i < n ==> r[i] < TwoTo32
    decreases n
  {
    if n == 0 then [] else [U32At(s, pos)] + ReadSizes(s, pos + 4, n - 1)
  }

  /** n length-prefixed names from position pos, and the position after them. */
  function ReadNames(s: seq<byte>, pos: nat, n: nat): (r: Result<(seq<seq<byte>>, nat)>)
    requires pos <= |s|
    ensures r.Ok? ==> |r.value.0| == n && pos <= r.value.1 <= |s|
    ensures r.Err? ==> r.error == Truncated
    decreases n
  {
    if n == 0 then Ok(([], pos))
    else if |s| < pos + 2 then Err(Truncated)
    else
      var len := U16At(s, pos);
      if |s| < pos + 2 + len then Err(Truncated)
      else
        var rest := ReadNames(s, pos + 2 + len, n - 1);
        if rest.Err? then rest
        else Ok(([s[pos + 2..pos + 2 + len]] + rest.value.0, rest.value.1))
  }

  /** Consecutive payload slices of the given sizes from position pos, and the
      position after them. */
  function ReadPayloads(s: seq<byte>, pos: nat, sizes: seq<nat>): (r: Result<(seq<seq<byte>>, nat)>)
    requires pos <= |s|
    ensures r.Ok? ==> |r.value.0| == |sizes| && pos <= r.value.1 <= |s|
    ensures r.Err? ==> r.error != BadMagic
    decreases |sizes|
  {
    if sizes == [] then Ok(([], pos))
    else if sizes[0] >= SizeLimit then Err(NegativeSize)
    else if |s| < pos + sizes[0] then Err(Truncated)
    else
      var rest := ReadPayloads(s, pos + sizes[0], sizes[1..]);
      if rest.Err? then rest
      else Ok(([s[pos..pos + sizes[0]]] + rest.value.0, rest.value.1))
  }

  /** What the extractor reads from an archive buffer: the magic, the count,
      then the sections. */
  function Decode(s: seq<byte>): Result<seq<Entry>> {
    if |s| < 4 then Err(Truncated)
    else if !IsDpakMagic(U32At(s, 0)) then Err(BadMagic)
    else if |s| < 6 then Err(Truncated)
    else DecodeSections(s, U16At(s, 4))
  }

  /** The n sizes, the n names and the n payloads that follow the count. */
  function DecodeSections(s: seq<byte>, n: nat): (r: Result<seq<Entry>>)
    requires 6 <= |s|
    ensures r.Ok? ==> |r.value| == n
    ensures r.Err? ==> r.error != BadMagic
  {
    if |s| < 6 + 4 * n then Err(Truncated)
    else
      var sizes := ReadSizes(s, 6, n);
      var names := ReadNames(s, 6 + 4 * n, n);
      if names.Err? then Err(names.error)
      else
        var payloads := ReadPayloads(s, names.value.1, sizes);
        if payloads.Err? then Err(payloads.error)
        else Ok(Zip(names.value.0, sizes, payloads.value.0))
  }
}
