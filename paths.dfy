/** The path strings the extractor, the packer and the compressor derive from
    a file or folder name: `find_last_of`/`rfind`, `substr`, concatenation and
    `std::replace`, on Windows-style paths. */
module Paths {

  /** Both separators `find_last_of("/\\")` looks for. */
  const Separators: set<char> := {'/', '\\'}

  /** No character of s is in cs. */
  predicate Avoids(s: string, cs: set<char>) {
    forall k :: 0 <= k < |s| ==> s[k] !in cs
  }

  lemma AvoidsAppend(a: string, b: string, cs: set<char>)
    ensures Avoids(a + b, cs) <==> Avoids(a, cs) && Avoids(b, cs)
  {
    if Avoids(a, cs) && Avoids(b, cs) {
      forall k | 0 <= k < |a + b| ensures (a + b)[k] !in cs {
        if k >= |a| {
          assert (a + b)[k] == b[k - |a|];
        }
      }
    }
    if Avoids(a + b, cs) {
      forall k | 0 <= k < |a| ensures a[k] !in cs {
        assert a[k] == (a + b)[k];
      }
      forall k | 0 <= k < |b| ensures b[k] !in cs {
        assert b[k] == (a + b)[|a| + k];
      }
    }
  }

  /** Position of the last character from cs in s, or -1 when there is none
      (`find_last_of` / `rfind`, with -1 for `npos`). */
  function FindLast(s: string, cs: set<char>): (r: int)
    ensures -1 <= r < |s|
    ensures r >= 0 ==> s[r] in cs
    ensures forall j :: r < j < |s| ==> s[j] !in cs
    decreases |s|
  {
    if |s| == 0 then -1
    else if s[|s| - 1] in cs then |s| - 1
    else FindLast(s[..|s| - 1], cs)
  }

  /** Any position with the three properties is the one FindLast finds. */
  lemma FindLastUnique(s: string, cs: set<char>, r: int)
    requires -1 <= r < |s| && (r >= 0 ==> s[r] in cs)
    requires forall j :: r < j < |s| ==> s[j] !in cs
    ensures FindLast(s, cs) == r
  {
  }

  /** The last match in a + b lies in b when b has one, and is a's otherwise. */
  lemma FindLastAppend(a: string, b: string, cs: set<char>)
    ensures FindLast(a + b, cs) == if FindLast(b, cs) >= 0 then |a| + FindLast(b, cs) else FindLast(a, cs)
  {
    var s := a + b;
    var qb := FindLast(b, cs);
    if qb >= 0 {
      forall j | |a| + qb < j < |s| ensures s[j] !in cs {
        assert s[j] == b[j - |a|];
      }
      FindLastUnique(s, cs, |a| + qb);
    } else {
      var qa := FindLast(a, cs);
      forall j | qa < j < |s| ensures s[j] !in cs {
        if j >= |a| {
          assert s[j] == b[j - |a|];
        }
      }
      FindLastUnique(s, cs, qa);
    }
  }

  /** Every position holding a character of cs is at or before FindLast's
      answer, so FindLast finds a position whenever one exists. */
  lemma FindLastFound(s: string, cs: set<char>, k: nat)
    requires k < |s| && s[k] in cs
    ensures k <= FindLast(s, cs)
  {
  }

  /** The base name: what follows the last `/` or `\` (the whole name when there is none). */
  function BaseName(f: string): (r: string)
    ensures |r| <= |f| && f[|f| - |r|..] == r
    ensures Avoids(r, Separators)
    ensures |r| == |f| || f[|f| - |r| - 1] in Separators
  {
    f[FindLast(f, Separators) + 1..]
  }

  /** The name without its last `.`-extension (`substr(0, find_last_of('.'))`). */
  function Stem(b: string): (r: string)
    ensures |r| <= |b| && b[..|r|] == r
    ensures '.' in b ==> |r| < |b| && b[|r|] == '.' && '.' !in b[|r| + 1..]
    ensures '.' !in b ==> r == b
  {
    var p := FindLast(b, {'.'});
    if p < 0 then
      assert forall k :: 0 <= k < |b| ==> b[k] != '.';
      b
    else
      assert Avoids(b[p + 1..], {'.'});
      b[..p]
  }

  /** The text before the last `\`, or the empty string when there is none. */
  function ParentPrefix(f: string): (r: string)
    ensures '\\' in f ==> |r| < |f| && f[..|r|] == r && f[|r|] == '\\' && '\\' !in f[|r| + 1..]
    ensures '\\' !in f ==> r == []
  {
    var p := FindLast(f, {'\\'});
    if p < 0 then
      assert forall k :: 0 <= k < |f| ==> f[k] != '\\';
      []
    else
      assert Avoids(f[p + 1..], {'\\'});
      f[..p]
  }

  /** The texts the program appends to the names it derives. */
  const ExtractedSuffix: string := "_extracted"
  const DpakExtension: string := ".dpak"
  const UncompressedSuffix: string := "_Uncompressed"
  const CompressedSuffix: string := "_Compressed"

  /** None of the appended texts holds a separator, and the decompressor's
      holds no `.` either, so none of them moves a base name, a stem or a
      parent prefix. */
  lemma SuffixesPlain()
    ensures Avoids(ExtractedSuffix, {'\\'})
    ensures Avoids(DpakExtension, Separators)
    ensures Avoids(UncompressedSuffix, Separators) && '.' !in UncompressedSuffix && '\\' !in UncompressedSuffix
  {
  }

  /** Where an archive's entries go: the prefix before the archive path's
      last `\`, a `\`, the archive's base name without its extension, and
      "_extracted". */
  function ExtractionDirectory(filename: string): string {
    ParentPrefix(filename) + "\\" + Stem(BaseName(filename)) + ExtractedSuffix
  }

  /** `std::replace` of every `from` by `to`. */
  function Replaced(s: string, from: char, to: char): string {
    seq(|s|, i requires 0 <= i < |s| => if s[i] == from then to else s[i])
  }

  /** The file an entry is written to: the directory, `\` and the name as stored. */
  function EntryFilePath(dir: string, name: string): string {
    dir + "\\" + name
  }

  /** The directory created for an entry: its file path with `/` turned into
      `\`, up to the last `\`. */
  function EntrySubdirectory(dir: string, name: string): string {
    ParentPrefix(Replaced(EntryFilePath(dir, name), '/', '\\'))
  }

  /** `path::filename()` of a folder, with both separators recognised. */
  function FolderName(folder: string): string {
    BaseName(folder)
  }

  /** The archive the packer writes for a folder: beside it, named after it. */
  function PackOutputPath(folder: string): string {
    folder + "\\..\\" + FolderName(folder) + DpakExtension
  }

  /** The sibling files the compressor writes. */
  function UncompressedName(filename: string): string {
    filename + UncompressedSuffix
  }

  function CompressedName(filename: string): string {
    filename + CompressedSuffix
  }

  // ---------------------------------------------------------------------
  // Properties

  /** Concatenation commutes with replacing. */
  lemma ReplacedAppend(a: string, b: string, from: char, to: char)
    ensures Replaced(a + b, from, to) == Replaced(a, from, to) + Replaced(b, from, to)
  {
    var l, r := Replaced(a + b, from, to), Replaced(a, from, to) + Replaced(b, from, to);
    forall i | 0 <= i < |l| ensures l[i] == r[i] {
      if i >= |a| {
        assert (a + b)[i] == b[i - |a|];
      }
    }
  }

  /** After replacing, no `from` remains, and every other character is kept. */
  lemma ReplacedRemoves(s: string, from: char, to: char)
    requires from != to
    ensures |Replaced(s, from, to)| == |s| && from !in Replaced(s, from, to)
    ensures forall i :: 0 <= i < |s| && s[i] != from ==> Replaced(s, from, to)[i] == s[i]
  {
  }

  /** The last `\` of a + `\` + b is in b when b has one, and is the one added otherwise. */
  lemma ParentPrefixJoin(a: string, b: string)
    ensures ParentPrefix(a + "\\" + b) == if '\\' in b then a + "\\" + ParentPrefix(b) else a
  {
    var s := a + "\\" + b;
    FindLastAppend(a + "\\", b, {'\\'});
    if '\\' in b {
      var q := FindLast(b, {'\\'});
      var k :| 0 <= k < |b| && b[k] == '\\';
      FindLastFound(b, {'\\'}, k);
      assert s[..|a| + 1 + q] == a + "\\" + b[..q];
    } else {
      assert forall j :: 0 <= j < |b| ==> b[j] !in {'\\'};
      FindLastUnique(b, {'\\'}, -1);
      FindLastUnique(a + "\\", {'\\'}, |a|);
      assert s[..|a|] == a;
    }
  }

  /** When the base name has no `\`, the subdirectory is the replaced
      directory; otherwise it also holds the name's own folders. */
  lemma EntrySubdirectoryOf(dir: string, name: string)
    ensures var n := Replaced(name, '/', '\\');
      EntrySubdirectory(dir, name) ==
        if '\\' in n then Replaced(dir, '/', '\\') + "\\" + ParentPrefix(n) else Replaced(dir, '/', '\\')
  {
    ReplacedAppend(dir + "\\", name, '/', '\\');
    ReplacedAppend(dir, "\\", '/', '\\');
    assert Replaced("\\", '/', '\\') == "\\";
    ParentPrefixJoin(Replaced(dir, '/', '\\'), Replaced(name, '/', '\\'));
  }

  /** A flat name (no separator) lands directly in the directory. */
  lemma FlatEntry(dir: string, name: string)
    requires Avoids(name, Separators)
    ensures EntrySubdirectory(dir, name) == Replaced(dir, '/', '\\')
  {
    EntrySubdirectoryOf(dir, name);
    assert Replaced(name, '/', '\\') == name;
  }

  /** A name below a folder lands in that folder of the directory, whichever separator it uses. */
  lemma NestedEntry(dir: string, folder: string, sep: char, file: string)
    requires sep in Separators
    requires Avoids(folder, Separators) && Avoids(file, Separators)
    ensures EntrySubdirectory(dir, folder + [sep] + file) == Replaced(dir, '/', '\\') + "\\" + folder
  {
    var name := folder + [sep] + file;
    EntrySubdirectoryOf(dir, name);
    ReplacedAppend(folder + [sep], file, '/', '\\');
    ReplacedAppend(folder, [sep], '/', '\\');
    assert Replaced(folder, '/', '\\') == folder;
    assert Replaced(file, '/', '\\') == file;
    assert Replaced([sep], '/', '\\') == "\\";
    assert Replaced(name, '/', '\\') == folder + "\\" + file;
    ParentPrefixJoin(folder, file);
    assert '\\' !in file by {
      assert forall k :: 0 <= k < |file| ==> file[k] != '\\';
    }
    assert '\\' in folder + "\\" + file by {
      assert (folder + "\\" + file)[|folder|] == '\\';
    }
  }

  /** The base name of a + t, for t without separators, continues a's base name. */
  lemma BaseNameAppend(a: string, t: string)
    requires Avoids(t, Separators)
    ensures BaseName(a + t) == BaseName(a) + t
  {
    FindLastUnique(t, Separators, -1);
    FindLastAppend(a, t, Separators);
    var p := FindLast(a, Separators);
    assert FindLast(a + t, Separators) == p;
    assert (a + t)[p + 1..] == a[p + 1..] + t;
  }

  /** The stem of b + t, when b has a `.` and t has none, is b's stem. */
  lemma StemAppend(b: string, t: string)
    requires '.' in b && '.' !in t
    ensures Stem(b + t) == Stem(b)
  {
    assert forall j :: 0 <= j < |t| ==> t[j] !in {'.'};
    FindLastUnique(t, {'.'}, -1);
    FindLastAppend(b, t, {'.'});
    var k :| 0 <= k < |b| && b[k] == '.';
    FindLastFound(b, {'.'}, k);
    var p := FindLast(b, {'.'});
    assert (b + t)[..p] == b[..p];
  }

  /** The prefix before the last `\` of f + t, for t without `\`, is f's. */
  lemma ParentPrefixAppend(f: string, t: string)
    requires '\\' !in t
    ensures ParentPrefix(f + t) == ParentPrefix(f)
  {
    assert forall j :: 0 <= j < |t| ==> t[j] !in {'\\'};
    FindLastUnique(t, {'\\'}, -1);
    FindLastAppend(f, t, {'\\'});
    var p := FindLast(f, {'\\'});
    if p >= 0 {
      assert (f + t)[..p] == f[..p];
    }
  }

  /** An archive name without `\` extracts to a folder named after it at the top level. */
  lemma DirectoryWithoutBackslash(filename: string)
    requires '\\' !in filename
    ensures ExtractionDirectory(filename) == "\\" + Stem(BaseName(filename)) + "_extracted"
  {
    assert ParentPrefix(filename) == [];
    assert ParentPrefix(filename) + "\\" == "\\";
  }

  /** The stem of a base name holds no `\`. */
  lemma StemPlain(filename: string)
    ensures Avoids(Stem(BaseName(filename)), {'\\'})
  {
    var b := BaseName(filename);
    var stem := Stem(b);
    assert forall k :: 0 <= k < |stem| ==> stem[k] == b[k];
  }

  /** The directory sits at the archive's own prefix: its last `\` is the one
      the code adds. */
  lemma DirectoryParent(filename: string)
    ensures ParentPrefix(ExtractionDirectory(filename)) == ParentPrefix(filename)
  {
    var stem := Stem(BaseName(filename));
    var t := stem + ExtractedSuffix;
    StemPlain(filename);
    SuffixesPlain();
    AvoidsAppend(stem, ExtractedSuffix, {'\\'});
    assert ExtractionDirectory(filename) == ParentPrefix(filename) + "\\" + t;
    ParentPrefixJoin(ParentPrefix(filename), t);
  }

  /** The decompressed sibling of an archive whose base name has an extension
      extracts to the same directory as the archive. */
  lemma UncompressedExtractsAlike(filename: string)
    requires '.' in BaseName(filename)
    ensures ExtractionDirectory(UncompressedName(filename)) == ExtractionDirectory(filename)
  {
    var t := UncompressedSuffix;
    SuffixesPlain();
    BaseNameAppend(filename, t);
    StemAppend(BaseName(filename), t);
    ParentPrefixAppend(filename, t);
  }

  /** The pack output sits in the folder's parent and is named after the folder. */
  lemma PackOutputBeside(folder: string)
    ensures ParentPrefix(PackOutputPath(folder)) == folder + "\\.."
    ensures BaseName(PackOutputPath(folder)) == FolderName(folder) + ".dpak"
  {
    var name := FolderName(folder) + DpakExtension;
    ArchiveNamePlain(FolderName(folder), name);
    PackOutputParent(folder, name);
    PackOutputBase(folder, name);
  }

  lemma PackOutputParent(folder: string, name: string)
    requires name == FolderName(folder) + DpakExtension && '\\' !in name
    ensures ParentPrefix(PackOutputPath(folder)) == folder + "\\.."
  {
    assert PackOutputPath(folder) == (folder + "\\..") + "\\" + name;
    ParentPrefixJoin(folder + "\\..", name);
  }

  lemma PackOutputBase(folder: string, name: string)
    requires name == FolderName(folder) + DpakExtension && Avoids(name, Separators)
    ensures BaseName(PackOutputPath(folder)) == name
  {
    assert PackOutputPath(folder) == (folder + "\\..\\") + name;
    BaseNameAppend(folder + "\\..\\", name);
    BaseNameAfterSeparator(folder + "\\..\\");
  }

  /** A folder name with ".dpak" added still holds no separator. */
  lemma ArchiveNamePlain(base: string, name: string)
    requires Avoids(base, Separators) && name == base + DpakExtension
    ensures Avoids(name, Separators) && '\\' !in name
  {
    SuffixesPlain();
    AvoidsAppend(base, DpakExtension, Separators);
  }

  /** A path ending in a separator has an empty base name. */
  lemma BaseNameAfterSeparator(s: string)
    requires |s| > 0 && s[|s| - 1] in Separators
    ensures BaseName(s) == []
  {
  }

  /** The compressor's two outputs never collide with each other or with their source. */
  lemma SiblingNamesDistinct(f: string, g: string)
    ensures UncompressedName(f) != CompressedName(g)
    ensures UncompressedName(f) != f && CompressedName(f) != f
    ensures UncompressedName(f) == UncompressedName(g) ==> f == g
    ensures CompressedName(f) == CompressedName(g) ==> f == g
  {
    var u, c := UncompressedName(f), CompressedName(g);
    assert u[|u| - 11] == 'n' && c[|c| - 11] == '_';
    if UncompressedName(f) == UncompressedName(g) {
      assert f == UncompressedName(f)[..|f|];
    }
    if CompressedName(f) == CompressedName(g) {
      assert f == CompressedName(f)[..|f|];
    }
  }
}
