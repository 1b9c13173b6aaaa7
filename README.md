# DPAK archive toolset, modelled in Dafny

The toolset is a command-line program that builds and unpacks DPAK
archives.

Given a folder, it packs the folder into `<folder>\..\<name>.dpak` and then
writes a zlib-compressed copy named `<name>.dpak_Compressed`.

Given a file, it classifies the file by its first four bytes:

- a DPAK archive is extracted into `<dir>\<stem>_extracted`;
- an XML file is handed to the packing branch of `Handler`, the one a
  folder takes. The path there is a file, not a folder, so the directory
  walk fails before anything is packed (see "## Left out");
- a zlib stream is decompressed into `<file>_Uncompressed`, which is then
  extracted;
- anything else is reported as unsupported.

A DPAK archive has this layout, with every integer little-endian:

- the magic `"KAPD"`;
- a u16 entry count;
- one u32 size per entry;
- one u16-length-prefixed name per entry;
- the payloads, concatenated in entry order.

The model has six modules.

- `LittleEndian` (`little_endian.dfy`)
  - Bytes, and the u16 and u32 reads and writes the program performs with
    native `reinterpret_cast` I/O on x86.
  - Proofs that reading back the bytes written gives the value, and the
    reverse.
- `DpakFormat` (`dpak_format.dfy`)
  - The entry datatype and the limits of the format.
  - `Encode`, the image the packer writes.
  - `Decode`, the cursor read the extractor performs: sizes, then names,
    then payloads. It returns a `Result` with `Truncated`, `BadMagic` and
    `NegativeSize` errors.
- `DpakProperties` (`dpak_properties.dfy`)
  - The round trip, in both directions, and the exact set of buffers that
    decode to a given entry list.
  - The consumption bound.
  - The positional correspondence of sizes, names and payload slices.
  - The encoder's layout.
- `Paths` (`paths.dfy`)
  - The string rules: base name, stem, parent prefix and the extraction
    directory.
  - The entry path and its subdirectory after `/` is replaced by `\`.
  - The pack output path, and the `_Uncompressed` and `_Compressed`
    sibling names.
- `Archiver` (`archiver.dfy`)
  - `ExtractDPAK` and `PackageDPAK` as imperative methods:
    - counted loops advance a read cursor or append to an output buffer;
    - `std::replace` is done in place on a character array.
  - Each method is proved to compute the specification above: Decode for
    the extractor, Encode for the packer, and the path functions.
- `Dispatch` (`dispatch.dfy`)
  - `Handler`'s magic classification, with its priority order.
  - The actions it takes, recorded as a sequence of steps.
  - The buffer constants of `Compression`.

Three places where the model follows the code rather than the prose
description:

- An XML file is sent to `Handler(Filename, false)`, the packing branch:
  it is never extracted. The model records the steps that branch calls for,
  `Pack` then `Compress`, even though on a file the first one fails.
- No path-escape check exists: a stored name containing `..` is joined to
  the extraction directory as it is.
- The extraction directory cuts the base name at the last `/` or `\`, but
  the directory prefix only at the last `\`. An archive path separated by
  `/` alone, such as `C:/games/x.dpak`, therefore extracts to
  `\x_extracted` at the drive root. `Paths.DirectoryWithoutBackslash`
  states this case.

## Model

| member | source | states |
|---|---|---|
| LittleEndian.U16AtIff | Source.cpp:93-94 | a u16 field reads as x exactly when its two bytes are the little-endian bytes of x |
| LittleEndian.U32AtIff | Source.cpp:84-85 | a u32 field reads as x exactly when its four bytes are the little-endian bytes of x |
| DpakProperties.EncodeHeader | Source.cpp:167-168 | the packed image has length 6 + 4N + Σ(2 + name length) + Σ size, starts with the bytes "KAPD", whose u32 value is 1146110283, and its u16 at offset 4 is the entry count |
| DpakProperties.EncodeEntryAt | Source.cpp:169-189 | in the packed image, entry i's size is the u32 at 6 + 4i; its name length and name bytes sit at the i-th name offset; its payload is the bytes at the i-th payload offset |
| DpakProperties.PayloadOffsets | Source.cpp:179-190 | the first payload starts right after the name section, payload i + 1 starts right after payload i, and the last one ends at the archive length |
| DpakProperties.RoundTrip | Source.cpp:167-189 | decoding the image of a well-formed entry list, followed by any trailing bytes, gives back the same names, sizes and payloads in the same order |
| DpakProperties.DecodeIff | Source.cpp:63-141 | decoding yields entry list es exactly when the buffer has magic "KAPD" or "DPAK", es is well-formed, and the buffer continues with the packer's image of es after the magic |
| DpakProperties.DecodeThenEncode | Source.cpp:65-141 | after a successful decode, the buffer's first ArchiveLength(es) bytes are the magic followed by the packer's image of es; they are exactly the packer's image when the magic is "KAPD" |
| DpakProperties.TrailingBytesNeverRead | Source.cpp:124-141 | a decode consumes exactly 6 + 4N + Σ(2 + name length) + Σ size bytes: replacing everything after them does not change the result |
| DpakProperties.MagicAcceptance | Source.cpp:72 | the decoder rejects the magic exactly when the first four bytes are neither "KAPD" nor "DPAK" |
| DpakProperties.DecodedSizeAt | Source.cpp:82-90 | decoded entry i's size is the u32 at offset 6 + 4i |
| DpakProperties.DecodedNameAt | Source.cpp:91-106 | decoded entry i's name is the bytes after the u16 length at the i-th name offset, and that length is the name's length |
| DpakProperties.DecodedPayloadAt | Source.cpp:124-139 | decoded entry i's payload is exactly its size in bytes, read at the i-th payload offset, which follows payload i - 1 |
| Paths.FindLast | Source.cpp:108 | `find_last_of`: the index of the last character from the set, or -1; nothing after it is in the set |
| Paths.BaseName | Source.cpp:108 | the suffix of the path after its last `/` or `\`; it holds no separator and is the whole path or preceded by a separator |
| Paths.Stem | Source.cpp:109-110 | the base name up to its last `.`, with no `.` after that point; the whole base name when it has no `.` |
| Paths.ParentPrefix | Source.cpp:116-120 | the prefix before the last `\`, with no `\` after it; empty when the path has no `\` |
| Paths.DirectoryWithoutBackslash | Source.cpp:115-123 | a file name without `\` extracts to `\<stem>_extracted` |
| Paths.DirectoryParent | Source.cpp:115-123 | the extraction directory's prefix before its last `\` is the archive path's prefix before its last `\`; when the archive's last separator is `\`, that is the archive's own directory |
| Paths.UncompressedExtractsAlike | Source.cpp:108-123 | when the base name has an extension, `<file>_Uncompressed` extracts into the same directory as `<file>` |
| Paths.ReplacedRemoves | Source.cpp:127 | after the replace no `/` is left, the length is unchanged, and every other character stays |
| Paths.ParentPrefixJoin | Source.cpp:128-133 | the parent of `a\b` is `a\` plus the parent of b when b holds a `\`, and a otherwise |
| Paths.EntrySubdirectoryOf | Source.cpp:126-133 | an entry's subdirectory is the replaced directory, plus `\` and the parent of the replaced name when the name has a separator |
| Paths.FlatEntry | Source.cpp:126-134 | an entry whose name has no separator creates only the extraction directory |
| Paths.NestedEntry | Source.cpp:126-134 | an entry named `folder/file` or `folder\file` creates `<dir>\folder` |
| Paths.PackOutputBeside | Source.cpp:147-150 | the archive is written in the folder's parent (`<folder>\..`), under the folder's name plus `.dpak` |
| Paths.SiblingNamesDistinct | Source.cpp:37-57 | the `_Uncompressed` and `_Compressed` names differ from each other and from their source, and each naming is injective |
| Archiver.ReplaceInPlace | Source.cpp:127 | the array afterwards holds the old contents with every `from` replaced by `to` |
| Archiver.ReadSizeFields | Source.cpp:82-90 | the n u32 fields are read in order, and the cursor ends 4n bytes further on |
| Archiver.ReadNameFields | Source.cpp:91-106 | the name loop computes the decoder's name read: the names and the cursor after them, or Truncated |
| Archiver.EntryAt | Source.cpp:126-137 | the output built for one entry: its file path, the subdirectory computed from the path after the in-place replace, and the payload slice at the cursor |
| Archiver.WriteEntries | Source.cpp:124-141 | the entry loop produces one output per entry, in order, from consecutive payload slices; it fails exactly as the payload read does |
| Archiver.ExtractSections | Source.cpp:74-141 | the three loops after the count compute the decoder's section read, mapped to outputs under the extraction directory |
| Archiver.ExtractDpak | Source.cpp:63-144 | extraction computes ExtractionPlan: the outputs of the decoded entries under the extraction directory, or the decoder's error |
| Archiver.CollectEntries | Source.cpp:151-166 | the count, sizes and names collected in entry order |
| Archiver.WriteSizeFields | Source.cpp:169-172 | appends the size section: one u32 per entry |
| Archiver.WriteNameFields | Source.cpp:173-178 | appends the name section: a u16 length and the name bytes per entry |
| Archiver.WritePayloads | Source.cpp:179-191 | appends the payloads, concatenated in order |
| Archiver.PackageDpak | Source.cpp:145-192 | the archive is written at `<folder>\..\<name>.dpak`, and its bytes are the image Encode gives |
| Archiver.PackThenExtract | Source.cpp:124-139 | extracting a packed archive writes each entry's payload to `<dir>\<name>`, in entry order |
| Archiver.BadMagicWritesNothing | Source.cpp:72-143 | a file whose first four bytes are neither "KAPD" nor "DPAK" yields no outputs |
| Dispatch.PackSteps | Source.cpp:150-193 | packing writes the archive at `<folder>\..\<name>.dpak`, then compresses it into `<archive>_Compressed`, which differs from the archive |
| Dispatch.SwappedTestRedundant | Source.cpp:215 | the `uint16_t(Magic) == 40056` test never decides anything: any value it accepts already has low byte 120 |
| Dispatch.ZlibBytes | Source.cpp:215 | the zlib test holds exactly when the first byte is 0x78, or the first two bytes are 0x9C 0x78 |
| Dispatch.XmlBytesTest | Source.cpp:211 | the XML test holds exactly when the first four bytes are "<?xm" or its reverse |
| Dispatch.TestsDisjoint | Source.cpp:207-215 | the DPAK, XML and zlib tests accept disjoint sets of values, so their order decides nothing |
| Dispatch.ClassifyBytes | Source.cpp:207-219 | each outcome of the classification, in both directions, as a condition on the first bytes of the file |
| Dispatch.HandlerOnFile | Source.cpp:196-230 | a DPAK file is extracted; an XML file takes the packing branch, PackSteps on its own path; a zlib file is decompressed to `<file>_Uncompressed`, which is then extracted; anything else is reported as unsupported |
| Dispatch.DecompressThenExtract | Source.cpp:215-219 | for a zlib file, the file extracted is the decompressed sibling, never the original |
| Dispatch.CompressionKeepsSource | Source.cpp:37-57 | the compressor never writes over the file it reads, and its two output names differ |

## Left out

- miniz's `uncompress` and `compress2` are a foreign DEFLATE codec and are
  not modelled. Their use appears only as `Decompress` and `Compress`
  steps of `Dispatch.Handler`. The buffer constants are recorded as
  plain definitions:
  - the 1032 × input decompression bound;
  - the compression buffer of the input's size;
  - level 10.
- `Compression` writes its output file even when the codec reports an
  error, and prints a message. Neither the error path nor the message is
  modelled, because both depend on the codec.
- All file and directory I/O is not modelled. This covers `ifstream` and
  `ofstream`, `tellg`, `create_directories`, `stat` and `system("pause")`
  in `main`, and the debug output.
  - The extractor takes the file's bytes as a parameter and returns the
    list of outputs it would write: directory, path and contents.
  - The packer takes an already enumerated, ordered entry list.
- The directory walk of `PackageDPAK` (Source.cpp:155-166 and 181) is not
  modelled, because its behaviour depends on the file system. Its quirks
  are:
  - it counts directories as entries;
  - it stores only `filename()`, not the relative path;
  - it re-reads each payload from `<folder>\<name>`, silently skipping a
    file that does not open there.
- Archiver.PackageDpak: requires a WellFormed entry list, meaning:
  - fewer than 65536 entries;
  - names shorter than 65536 bytes;
  - sizes below 2^31;
  - payloads as long as their size.

  It does not model the silent u16 wrap-around of the entry count and of
  the name lengths, or the `int` cast of sizes.
- Archiver.PackageDpak: an entry of size 0 is allowed, and it contributes
  no payload bytes. The source writes such an entry through `&buffer[0]`
  on an empty vector (Source.cpp:186-189). That is undefined behaviour:
  checked builds of the standard library stop there, and other builds
  write nothing. The model promises only the second outcome.
- Dispatch.Handler: on the XML branch, `PackageDPAK` runs on a path that
  is a file (Source.cpp:211-213, 236-253). Several things differ from the
  model's steps there:
  - It opens the archive `<file>\..\<file name>.dpak` for writing
    (line 150).
  - The `recursive_directory_iterator` at line 155 then fails on a
    non-directory, and the uncaught error ends the program.
  - So nothing is packed, and the `Compression` call at line 193 is never
    reached.

  The model still lists the `Pack` and `Compress` steps the branch calls
  for, because program termination by an exception is not modelled.
- Archiver.ExtractDpak is stronger than the source on malformed input:
  - A read past the end of the buffer yields `Truncated`; the source goes
    on with whatever the failed stream read left behind.
  - A size of 2^31 or more yields `NegativeSize`; in the source it becomes
    a negative `int` and the buffer allocation fails.
  - A wrong magic yields `BadMagic`; the source does nothing.
- Archiver.ExtractDpak returns an error and no outputs when a payload read
  fails. The source has, by then, already written the entries before the
  failing one.
- Dispatch.Handler: a file shorter than four bytes gives no steps. The
  source would test an uninitialised magic.
- Paths.FolderName models `path::filename()` as the text after the last
  `/` or `\`. Root names such as drive letters and `.`/`..` components
  are not treated specially.
- Strings are sequences of characters with no encoding. A stored name's
  bytes become characters one to one, as the `std::string` built from them
  does.
