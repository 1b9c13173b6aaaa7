/** What the program does with the path it is given: classify a file by its
    first four bytes and extract, pack, or decompress then extract it; pack a
    folder. Each action is recorded as a step rather than performed. */
module Dispatch {
  import opened LittleEndian
  import opened DpakFormat
  import opened Paths
  import DpakProperties

  /** The four outcomes of the magic test. */
  datatype Format = Dpak | Xml | Zlib | Unsupported

  /** "<?xm" read little-endian, and the same bytes reversed. */
  const XmlLE: nat := 1836597052
  const XmlBE: nat := 1010792557
  /** A zlib stream's first byte (CMF 0x78), and the two u16 patterns Handler also accepts. */
  const ZlibCmf: nat := 120
  const Zlib16Swapped: nat := 40056
  const Zlib16: nat := 30876

  const XmlBytes: seq<byte> := [0x3C, 0x3F, 0x78, 0x6D]
  const XmlReversed: seq<byte> := [0x6D, 0x78, 0x3F, 0x3C]

  /** The zlib test: the low byte of the magic (`uint8_t(Magic)`) or its low
      half (`uint16_t(Magic)`). */
  predicate ZlibMagic(magic: nat) {
    magic % 256 == ZlibCmf || magic % TwoTo16 == Zlib16Swapped || magic % TwoTo16 == Zlib16
  }

  /** Handler's tests on the magic, in the order it tries them. */
  function Classify(magic: nat): Format {
    if IsDpakMagic(magic) then Dpak
    else if magic == XmlLE || magic == XmlBE then Xml
    else if ZlibMagic(magic) then Zlib
    else Unsupported
  }

  // ---------------------------------------------------------------------
  // Compression, with the codec itself left out

  /** The buffer the decompressor reserves: 1032 output bytes per input byte. */
  const DecompressFactor: nat := 1032
  /** The level the compressor is called with. */
  const CompressionLevel: nat := 10

  /** What Compression writes next to its input. */
  function CompressionTarget(filename: string, decompress: bool): string {
    if decompress then UncompressedName(filename) else CompressedName(filename)
  }

  /** The capacity of the output buffer, in bytes, for an input of the given size:
      1032 times the input to decompress, the input size to compress. */
  function OutputCapacity(size: nat, decompress: bool): nat {
    if decompress then size * DecompressFactor else size
  }

  // ---------------------------------------------------------------------
  // Dispatch

  datatype Step =
    | Extract(archive: string)                         // ExtractDPAK on this file
    | Decompress(source: string, target: string)      // Compression(source, true)
    | Pack(folder: string, archive: string)           // PackageDPAK of the folder
    | Compress(source: string, target: string)        // Compression(source, false)
    | ReportUnsupported                               // "Unsupported filetype!"

  /** Packing a folder: the archive beside it, then its compressed sibling. */
  function PackSteps(folder: string): (r: seq<Step>)
    ensures |r| == 2 && r[0] == Pack(folder, PackOutputPath(folder))
    ensures r[1] == Compress(r[0].archive, CompressedName(r[0].archive)) && r[1].source != r[1].target
  {
    var archive := PackOutputPath(folder);
    SiblingNamesDistinct(archive, archive);
    [Pack(folder, archive), Compress(archive, CompressionTarget(archive, false))]
  }

  /** Handler: from the path, the mode, and the bytes of the file when it is one. */
  function Handler(filename: string, decompile: bool, contents: seq<byte>): seq<Step>
    decreases decompile
  {
    if !decompile then PackSteps(filename)
    else if |contents| < 4 then []
    else
      match Classify(U32At(contents, 0))
      case Dpak => [Extract(filename)]
      case Xml => Handler(filename, false, contents)
      case Zlib =>
        var target := CompressionTarget(filename, true);
        [Decompress(filename, target), Extract(target)]
      case Unsupported => [ReportUnsupported]
  }

  // ---------------------------------------------------------------------
  // Properties

  /** The 40056 test never decides anything: its values already have low byte 0x78. */
  lemma SwappedTestRedundant(magic: nat)
    ensures ZlibMagic(magic) <==> magic % 256 == ZlibCmf || magic % TwoTo16 == Zlib16
  {
    if magic % TwoTo16 == Zlib16Swapped {
      var q := magic / TwoTo16;
      assert magic == TwoTo16 * q + 40056;
      assert magic == 256 * (256 * q + 156) + 120;
    }
  }

  /** The low byte and the low half of a u32 read are its first byte and its first two bytes. */
  lemma LowParts(b: seq<byte>)
    requires |b| >= 4
    ensures U32At(b, 0) % 256 == b[0]
    ensures U32At(b, 0) % TwoTo16 == U16At(b, 0)
  {
    var m := U32At(b, 0);
    var hi := b[2] as int + 0x100 * b[3] as int;
    assert m == U16At(b, 0) + TwoTo16 * hi;
    ByteSplit(b[0], b[1] as int + 0x100 * hi);
  }

  /** The zlib test on the bytes: a first byte of 0x78, or the bytes 0x9C 0x78. */
  lemma ZlibBytes(b: seq<byte>)
    requires |b| >= 4
    ensures ZlibMagic(U32At(b, 0)) <==> b[0] == 0x78 || (b[0] == 0x9C && b[1] == 0x78)
  {
    LowParts(b);
    SwappedTestRedundant(U32At(b, 0));
    U16AtIff(b, 0, Zlib16);
    assert U16Bytes(Zlib16) == [0x9C, 0x78];
    assert b[..2] == [b[0], b[1]];
  }

  /** The XML test on the bytes: "<?xm" in either byte order. */
  lemma XmlBytesTest(b: seq<byte>)
    requires |b| >= 4
    ensures (U32At(b, 0) == XmlLE || U32At(b, 0) == XmlBE) <==> b[..4] == XmlBytes || b[..4] == XmlReversed
  {
    U32AtIff(b, 0, XmlLE);
    U32AtIff(b, 0, XmlBE);
    assert U32Bytes(XmlLE) == XmlBytes;
    assert U32Bytes(XmlBE) == XmlReversed;
  }

  /** The three accepting tests never overlap, so their order decides nothing. */
  lemma TestsDisjoint(magic: nat)
    ensures !(IsDpakMagic(magic) && (magic == XmlLE || magic == XmlBE))
    ensures IsDpakMagic(magic) ==> !ZlibMagic(magic)
    ensures magic == XmlLE || magic == XmlBE ==> !ZlibMagic(magic)
  {
  }

  /** The classification, in terms of the first bytes of the file. */
  lemma ClassifyBytes(b: seq<byte>)
    requires |b| >= 4
    ensures Classify(U32At(b, 0)) == Dpak <==> b[..4] == KapdBytes || b[..4] == DpakBytes
    ensures Classify(U32At(b, 0)) == Xml <==> b[..4] == XmlBytes || b[..4] == XmlReversed
    ensures Classify(U32At(b, 0)) == Zlib <==> b[0] == 0x78 || (b[0] == 0x9C && b[1] == 0x78)
  {
    var m := U32At(b, 0);
    DpakProperties.MagicBytes(b);
    XmlBytesTest(b);
    ZlibBytes(b);
    TestsDisjoint(m);
  }

  /** Handler's outcome for a file of at least four bytes, by its first bytes. */
  lemma HandlerOnFile(filename: string, b: seq<byte>)
    requires |b| >= 4
    ensures b[..4] == KapdBytes || b[..4] == DpakBytes ==> Handler(filename, true, b) == [Extract(filename)]
    ensures b[..4] == XmlBytes || b[..4] == XmlReversed ==> Handler(filename, true, b) == PackSteps(filename)
    ensures b[0] == 0x78 || (b[0] == 0x9C && b[1] == 0x78) ==>
      Handler(filename, true, b) == [Decompress(filename, UncompressedName(filename)), Extract(UncompressedName(filename))]
    ensures (b[..4] != KapdBytes && b[..4] != DpakBytes && b[..4] != XmlBytes && b[..4] != XmlReversed &&
             b[0] != 0x78 && !(b[0] == 0x9C && b[1] == 0x78)) ==>
      Handler(filename, true, b) == [ReportUnsupported]
  {
    ClassifyBytes(b);
  }

  /** A compressed archive is decompressed to its sibling, and the sibling,
      never the original, is what gets extracted. */
  lemma DecompressThenExtract(filename: string, b: seq<byte>)
    requires |b| >= 4 && Classify(U32At(b, 0)) == Zlib
    ensures var steps := Handler(filename, true, b);
      |steps| == 2 && steps[0].Decompress? && steps[1].Extract? &&
      steps[0].source == filename && steps[1].archive == steps[0].target != filename
  {
    SiblingNamesDistinct(filename, filename);
  }

  /** Every file the compressor writes differs from the file it reads. */
  lemma CompressionKeepsSource(filename: string, decompress: bool)
    ensures CompressionTarget(filename, decompress) != filename
    ensures CompressionTarget(filename, true) != CompressionTarget(filename, false)
  {
    SiblingNamesDistinct(filename, filename);
  }
}
