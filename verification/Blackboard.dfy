/** Importing files into a node's attachment directory: never overwrite, take the
    first free suffix, and undo everything on an error. */
module Blackboard {
  import opened Bytes
  import opened Options
  import opened Text

  type Contents = seq<Byte>

  // ---------------------------------------------------------------------------
  // Names

  predicate IsSeparator(c: char) {
    c == '/' || c == '\\'
  }

  predicate IsControl(c: char) {
    c <= '\U{001F}' || '\U{007F}' <= c <= '\U{009F}'
  }

  /** What follows the last path separator. */
  function LastComponent(raw: string): (s: string)
    ensures forall i :: 0 <= i < |s| ==> !IsSeparator(s[i])
    ensures (forall i :: 0 <= i < |raw| ==> !IsSeparator(raw[i])) ==> s == raw
  {
    if raw == "" then ""
    else if exists i :: 0 <= i < |raw| && IsSeparator(raw[i]) then LastComponent(raw[1..])
    else raw
  }

  /** A name that stays inside the directory it is joined to. */
  predicate IsSafeName(name: string) {
    && name != "" && name != "." && name != ".."
    && forall i :: 0 <= i < |name| ==> !IsSeparator(name[i]) && !IsControl(name[i])
  }

  function SanitizeImportName(raw: string): (r: Option<string>)
    ensures r.Some? ==> IsSafeName(r.value)
  {
    var last := Trim(LastComponent(raw));
    if last == "" || last == "." || last == ".." || (exists i :: 0 <= i < |last| && IsControl(last[i])) then None
    else
      assert forall i :: 0 <= i < |last| ==> last[i] in LastComponent(raw);
      Some(last)
  }

  /** Sanitizing a sanitized name changes nothing. */
  lemma SanitizeIdempotent(raw: string)
    requires SanitizeImportName(raw).Some?
    ensures SanitizeImportName(SanitizeImportName(raw).value) == SanitizeImportName(raw)
  {
    var name := SanitizeImportName(raw).value;
    assert LastComponent(name) == name;
    TrimTrimmed(name);
  }

  /** The index of the last dot, or -1. */
  function LastDot(name: string): (i: int)
    ensures -1 <= i < |name|
    ensures i >= 0 ==> name[i] == '.'
    ensures forall j :: i < j < |name| ==> name[j] != '.'
  {
    if name == "" then -1
    else if name[|name| - 1] == '.' then |name| - 1
    else LastDot(name[..|name| - 1])
  }

  /** Where the suffix goes: before the extension, unless the name is all extension. */
  function StemLength(name: string): (n: nat)
    ensures n <= |name|
  {
    if LastDot(name) > 0 then LastDot(name) else |name|
  }

  function SuffixedName(name: string, n: nat): string {
    name[..StemLength(name)] + "-" + Decimal(n) + name[StemLength(name)..]
  }

  /** The `n`-th name tried for a file. */
  function Candidate(name: string, n: nat): string {
    if n == 0 then name else SuffixedName(name, n)
  }

  /** No two tries are the same name. */
  lemma CandidateInjective(name: string, m: nat, n: nat)
    requires Candidate(name, m) == Candidate(name, n)
    ensures m == n
  {
    if m != 0 && n != 0 {
      var k := StemLength(name);
      var s, t := SuffixedName(name, m), SuffixedName(name, n);
      assert s[k + 1..|s| - (|name| - k)] == Decimal(m);
      assert t[k + 1..|t| - (|name| - k)] == Decimal(n);
      ValueOfDecimal(m);
      ValueOfDecimal(n);
    }
  }

  /** Every name tried for a safe name is safe. */
  lemma CandidateSafe(name: string, n: nat)
    requires IsSafeName(name)
    ensures IsSafeName(Candidate(name, n))
  {
    if n > 0 {
      var s := SuffixedName(name, n);
      var k := StemLength(name);
      assert s[k] == '-';
      forall i | 0 <= i < |s|
        ensures !IsSeparator(s[i]) && !IsControl(s[i])
      {
        if k + 1 <= i < k + 1 + |Decimal(n)| {
          assert s[i] == Decimal(n)[i - k - 1];
        }
      }
    }
  }

  /** The suffix goes before the extension, or at the end of a name that has none;
      a leading dot is not an extension. */
  lemma SuffixBeforeExtension(stem: string, extension: string, n: nat)
    requires !Contains(extension, '.')
    ensures stem != "" ==>
              SuffixedName(stem + "." + extension, n) == stem + "-" + Decimal(n) + "." + extension
    ensures SuffixedName(extension, n) == extension + "-" + Decimal(n)
    ensures SuffixedName("." + extension, n) == "." + extension + "-" + Decimal(n)
  {
    var name := stem + "." + extension;
    assert forall j :: |stem| < j < |name| ==> name[j] == extension[j - |stem| - 1];
    assert name[|stem|] == '.';
    assert LastDot(name) == |stem|;
    assert name[..|stem|] == stem && name[|stem|..] == "." + extension;
    assert extension[..|extension|] == extension && extension[|extension|..] == "";
    var hidden := "." + extension;
    assert forall j :: 0 < j < |hidden| ==> hidden[j] == extension[j - 1];
    assert hidden[..|hidden|] == hidden && hidden[|hidden|..] == "";
  }

  /** Whatever directory the browser put before the name is ignored. */
  lemma {:induction false} DirectoryIgnored(dir: string, separator: char, base: string)
    requires IsSeparator(separator)
    ensures SanitizeImportName(dir + [separator] + base) == SanitizeImportName(base)
  {
    LastComponentAfter(dir, separator, base);
  }

  lemma {:induction false} LastComponentAfter(dir: string, separator: char, base: string)
    requires IsSeparator(separator)
    ensures LastComponent(dir + [separator] + base) == LastComponent(base)
  {
    var raw := dir + [separator] + base;
    assert raw[|dir|] == separator;
    if dir == "" {
      assert raw[1..] == base;
    } else {
      assert raw[1..] == dir[1..] + [separator] + base;
      LastComponentAfter(dir[1..], separator, base);
    }
  }

  /** The names of the first `n` tries. */
  ghost function Tried(name: string, n: nat): (s: set<string>)
    ensures forall x :: x in s <==> exists m: nat :: m < n && x == Candidate(name, m)
  {
    if n == 0 then {} else Tried(name, n - 1) + {Candidate(name, n - 1)}
  }

  lemma {:induction false} TriedSize(name: string, n: nat)
    ensures |Tried(name, n)| == n
  {
    if n > 0 {
      TriedSize(name, n - 1);
      if Candidate(name, n - 1) in Tried(name, n - 1) {
        var m: nat :| m < n - 1 && Candidate(name, m) == Candidate(name, n - 1);
        CandidateInjective(name, m, n - 1);
      }
    }
  }

  lemma {:induction false} SubsetSize(a: set<string>, b: set<string>)
    requires a <= b
    ensures |a| <= |b|
  {
    if a != {} {
      var x :| x in a;
      SubsetSize(a - {x}, b - {x});
    }
  }

  /** Tries that are all taken are no more than the names there are. */
  lemma TriesBounded(name: string, n: nat, taken: set<string>)
    requires forall m: nat :: m < n ==> Candidate(name, m) in taken
    ensures n <= |taken|
  {
    TriedSize(name, n);
    SubsetSize(Tried(name, n), taken);
  }

  // ---------------------------------------------------------------------------
  // The directory

  datatype OpenResult = Created | AlreadyExists | OpenError

  /** A directory of regular files. Any call may fail for reasons outside the model. */
  class Directory {
    var files: map<string, Contents>

    constructor (files: map<string, Contents>)
      ensures this.files == files
    {
      this.files := files;
    }

    /** The exclusive creation of a new, empty file. */
    method CreateNew(name: string) returns (r: OpenResult)
      modifies this
      ensures r.Created? ==> name !in old(files) && files == old(files)[name := []]
      ensures r.AlreadyExists? ==> name in files
      ensures !r.Created? ==> files == old(files)
    {
      var broken: bool := *;
      if broken {
        return OpenError;
      }
      if name in files {
        return AlreadyExists;
      }
      files := files[name := []];
      return Created;
    }

    /** Writing may stop part of the way. */
    method WriteAll(name: string, data: Contents) returns (ok: bool)
      requires name in files
      modifies this
      ensures name in files && files == old(files)[name := files[name]]
      ensures files[name] <= data && (ok ==> files[name] == data)
    {
      var broken: bool := *;
      if broken {
        var n: nat :| n <= |data|;
        files := files[name := data[..n]];
        return false;
      }
      files := files[name := data];
      assert data[..|data|] == data;
      return true;
    }

    method Remove(name: string) returns (ok: bool)
      modifies this
      ensures files == if ok then old(files) - {name} else old(files)
    {
      var broken: bool := *;
      if broken {
        return false;
      }
      files := files - {name};
      return true;
    }
  }

  // ---------------------------------------------------------------------------
  // The import

  type File = (string, Contents)

  datatype ImportResult = Imported(names: seq<string>) | ImportError

  /** The first name tried that nothing has taken. */
  ghost predicate FirstFree(taken: set<string>, name: string, chosen: string) {
    exists n: nat :: chosen == Candidate(name, n) && chosen !in taken
                     && forall m: nat :: m < n ==> Candidate(name, m) in taken
  }

  ghost function Names(names: seq<string>): set<string> {
    set x | x in names
  }

  /** Each file took the first name free of the old files and of the files
      imported before it. */
  ghost predicate Placed(before: map<string, Contents>, files: seq<File>, names: seq<string>) {
    |names| <= |files|
    && forall i :: 0 <= i < |names| ==> FirstFree(before.Keys + Names(names[..i]), files[i].0, names[i])
  }

  /** The directory with the first files added under their names. */
  ghost function WithFiles(before: map<string, Contents>, files: seq<File>, names: seq<string>): map<string, Contents>
    requires |names| <= |files|
  {
    if names == [] then before
    else
      var k := |names| - 1;
      WithFiles(before, files, names[..k])[names[k] := files[k].1]
  }

  lemma {:induction false} WithFilesKeys(before: map<string, Contents>, files: seq<File>, names: seq<string>)
    requires |names| <= |files|
    ensures WithFiles(before, files, names).Keys == before.Keys + Names(names)
  {
    if names != [] {
      var k := |names| - 1;
      WithFilesKeys(before, files, names[..k]);
      assert names == names[..k] + [names[k]];
    }
  }

  /** Placed names are new and pairwise distinct. */
  lemma PlacedFresh(before: map<string, Contents>, files: seq<File>, names: seq<string>)
    requires Placed(before, files, names)
    ensures forall i :: 0 <= i < |names| ==> names[i] !in before
    ensures forall i, j :: 0 <= i < j < |names| ==> names[i] != names[j]
  {
    forall i, j | 0 <= i < j < |names|
      ensures names[i] != names[j]
    {
      assert names[i] in names[..j];
    }
  }

  /** What a successful import leaves: the old files untouched, and under each
      returned name the bytes of its file. */
  lemma ImportedContents(before: map<string, Contents>, files: seq<File>, names: seq<string>)
    requires Placed(before, files, names)
    ensures var after := WithFiles(before, files, names);
            && after.Keys == before.Keys + Names(names)
            && (forall x :: x in before ==> after[x] == before[x])
            && (forall i :: 0 <= i < |names| ==> names[i] in after && after[names[i]] == files[i].1)
  {
    WithFilesKeys(before, files, names);
    PlacedFresh(before, files, names);
    if names != [] {
      var k := |names| - 1;
      PlacedPrefix(before, files, names, k);
      hide FirstFree, Placed, Names;
      ImportedContents(before, files, names[..k]);
      var most := WithFiles(before, files, names[..k]);
      forall i | 0 <= i < k
        ensures names[i] in most && most[names[i]] == files[i].1
      {
        assert names[..k][i] == names[i];
      }
      OneFileMore(before, files, names, most);
    }
  }

  lemma OneFileMore(before: map<string, Contents>, files: seq<File>, names: seq<string>, most: map<string, Contents>)
    requires 0 < |names| <= |files|
    requires forall i :: 0 <= i < |names| ==> names[i] !in before
    requires forall i, j :: 0 <= i < j < |names| ==> names[i] != names[j]
    requires forall x :: x in before ==> x in most && most[x] == before[x]
    requires forall i :: 0 <= i < |names| - 1 ==> names[i] in most && most[names[i]] == files[i].1
    ensures var after := most[names[|names| - 1] := files[|names| - 1].1];
            && (forall x :: x in before ==> after[x] == before[x])
            && (forall i :: 0 <= i < |names| ==> names[i] in after && after[names[i]] == files[i].1)
  {
  }

  lemma PlacedPrefix(before: map<string, Contents>, files: seq<File>, names: seq<string>, k: nat)
    requires Placed(before, files, names) && k <= |names|
    ensures Placed(before, files, names[..k])
  {
    hide FirstFree;
    forall i | 0 <= i < k
      ensures FirstFree(before.Keys + Names(names[..k][..i]), files[i].0, names[..k][i])
    {
      assert names[..k][..i] == names[..i];
    }
  }

  /** Importing safe names writes safe names only: nothing leaves the directory. */
  lemma PlacedSafe(before: map<string, Contents>, files: seq<File>, names: seq<string>, i: nat)
    requires Placed(before, files, names) && i < |names| && IsSafeName(files[i].0)
    ensures IsSafeName(names[i])
  {
    hide SuffixedName, Names;
    assert FirstFree(before.Keys + Names(names[..i]), files[i].0, names[i]);
    var n: nat :| names[i] == Candidate(files[i].0, n);
    CandidateSafe(files[i].0, n);
  }

  /** Apart from the written names, which are new, the directory is as before. */
  ghost predicate Leftover(before: map<string, Contents>, after: map<string, Contents>, written: seq<string>) {
    && (forall x :: x in written ==> x !in before)
    && (forall x :: x !in written ==> (x in before <==> x in after))
    && (forall x :: x !in written && x in before ==> after[x] == before[x])
  }

  lemma PlacedLeftover(before: map<string, Contents>, files: seq<File>, written: seq<string>)
    requires Placed(before, files, written)
    ensures Leftover(before, WithFiles(before, files, written), written)
  {
    PlacedFresh(before, files, written);
    ImportedContents(before, files, written);
  }

  lemma PlaceOneMore(before: map<string, Contents>, files: seq<File>, written: seq<string>, chosen: string)
    requires Placed(before, files, written) && |written| < |files|
    requires FirstFree(before.Keys + Names(written), files[|written|].0, chosen)
    ensures Placed(before, files, written + [chosen])
    ensures WithFiles(before, files, written + [chosen])
            == WithFiles(before, files, written)[chosen := files[|written|].1]
  {
    hide FirstFree;
    var names := written + [chosen];
    assert names[..|written|] == written;
    forall i | 0 <= i < |names|
      ensures FirstFree(before.Keys + Names(names[..i]), files[i].0, names[i])
    {
      if i < |written| {
        assert names[..i] == written[..i];
      }
    }
  }

  /** A file written in part leaves no more behind than its own name. */
  lemma PartialLeftover(before: map<string, Contents>, files: seq<File>, written: seq<string>, chosen: string,
                        after: map<string, Contents>)
    requires |written| < |files| && Placed(before, files, written + [chosen])
    requires Leftover(before, WithFiles(before, files, written), written)
    requires chosen in after && after == WithFiles(before, files, written)[chosen := after[chosen]]
    ensures Leftover(before, after, written + [chosen])
  {
    PlacedFresh(before, files, written + [chosen]);
    hide FirstFree, WithFiles, Placed;
    var names := written + [chosen];
    assert forall x :: x in names <==> x in written || x == chosen;
    forall x | x in names
      ensures x !in before
    {
      var i :| 0 <= i < |names| && names[i] == x;
    }
  }

  /** Claims the first free name for a file. On an error nothing has changed. */
  method ClaimName(dir: Directory, name: string) returns (chosen: Option<string>)
    modifies dir
    ensures chosen.None? ==> dir.files == old(dir.files)
    ensures chosen.Some? ==> FirstFree(old(dir.files).Keys, name, chosen.value)
                             && dir.files == old(dir.files)[chosen.value := []]
  {
    var n: nat := 0;
    while true
      invariant dir.files == old(dir.files)
      invariant forall m: nat :: m < n ==> Candidate(name, m) in dir.files.Keys
      decreases |dir.files.Keys| - n
    {
      var candidate := Candidate(name, n);
      var outcome := dir.CreateNew(candidate);
      match outcome {
        case Created =>
          return Some(candidate);
        case OpenError =>
          return None;
        case AlreadyExists =>
          TriesBounded(name, n + 1, dir.files.Keys);
          n := n + 1;
      }
    }
  }

  /** Removes what an import wrote, ignoring failures as it goes. */
  method RemoveAll(dir: Directory, written: seq<string>, ghost before: map<string, Contents>)
    returns (ghost removed: bool)
    requires Leftover(before, dir.files, written)
    modifies dir
    ensures Leftover(before, dir.files, written)
    ensures removed ==> dir.files == before
  {
    removed := true;
    for i := 0 to |written|
      invariant Leftover(before, dir.files, written)
      invariant removed ==> forall j :: 0 <= j < i ==> written[j] !in dir.files
    {
      var ok := dir.Remove(written[i]);
      removed := removed && ok;
    }
    if removed {
      assert forall x :: x in written ==> x !in dir.files;
      assert dir.files.Keys == before.Keys;
      assert dir.files == before;
    }
  }

  /** Writes the next file under the first free name. */
  method WriteNext(dir: Directory, files: seq<File>, names: seq<string>, ghost before: map<string, Contents>)
    returns (written: seq<string>, failed: bool)
    requires |names| < |files| && Placed(before, files, names)
    requires dir.files == WithFiles(before, files, names)
    modifies dir
    ensures names <= written && |written| <= |names| + 1 && Placed(before, files, written)
    ensures failed ==> Leftover(before, dir.files, written)
    ensures !failed ==> |written| == |names| + 1 && dir.files == WithFiles(before, files, written)
  {
    hide FirstFree, Placed, WithFiles, Leftover, Names;
    WithFilesKeys(before, files, names);
    PlacedLeftover(before, files, names);
    var chosen := ClaimName(dir, files[|names|].0);
    if chosen.None? {
      return names, true;
    }
    PlaceOneMore(before, files, names, chosen.value);
    var ok := dir.WriteAll(chosen.value, files[|names|].1);
    PartialLeftover(before, files, names, chosen.value, dir.files);
    return names + [chosen.value], !ok;
  }

  /** Writes the files in order, up to the first error. */
  method WriteFiles(dir: Directory, files: seq<File>, ghost before: map<string, Contents>)
    returns (written: seq<string>, failed: bool)
    requires dir.files == before
    modifies dir
    ensures |written| <= |files| && Placed(before, files, written)
    ensures failed ==> Leftover(before, dir.files, written)
    ensures !failed ==> |written| == |files| && dir.files == WithFiles(before, files, written)
  {
    written := [];
    for i := 0 to |files|
      invariant |written| == i && Placed(before, files, written)
      invariant dir.files == WithFiles(before, files, written)
    {
      written, failed := WriteNext(dir, files, written, before);
      if failed {
        return;
      }
    }
    failed := false;
  }

  /** Imports all the files or none. On success each file has the first free name
      and its bytes; on an error every old file is intact, and nothing else is left
      if the removals succeeded. */
  method ImportFiles(dir: Directory, files: seq<File>) returns (r: ImportResult, ghost removed: bool)
    modifies dir
    ensures r.Imported? ==> |r.names| == |files| && Placed(old(dir.files), files, r.names)
                            && dir.files == WithFiles(old(dir.files), files, r.names)
    ensures r.ImportError? ==> forall x :: x in old(dir.files) ==> x in dir.files && dir.files[x] == old(dir.files)[x]
    ensures r.ImportError? && removed ==> dir.files == old(dir.files)
  {
    ghost var before := dir.files;
    var noDirectory: bool := *;
    if noDirectory {
      return ImportError, true;
    }
    var written, failed := WriteFiles(dir, files, before);
    if failed {
      removed := RemoveAll(dir, written, before);
      return ImportError, removed;
    }
    return Imported(written), true;
  }

  // ---------------------------------------------------------------------------
  // Which names come out

  /** The last path component, with the white space around it. */
  ghost predicate IsLastComponent(raw: string, last: string) {
    && (forall i :: 0 <= i < |last| ==> last[i] != '/' && last[i] != '\\')
    && exists dir :: raw == dir + last && (dir == "" || dir[|dir| - 1] in "/\\")
  }

  lemma LastComponentIs(raw: string, last: string)
    requires IsLastComponent(raw, last)
    ensures LastComponent(raw) == last
  {
    var dir :| raw == dir + last && (dir == "" || dir[|dir| - 1] in "/\\");
    if dir == "" {
      assert raw == last;
    } else {
      assert raw == dir[..|dir| - 1] + [dir[|dir| - 1]] + last;
      LastComponentAfter(dir[..|dir| - 1], dir[|dir| - 1], last);
    }
    assert LastComponent(last) == last;
  }

  /** An imported name is the trimmed last component of what was sent, unless that is
      empty, `.` or `..`, or holds a control character. */
  lemma SanitizeIff(raw: string, before: string, name: string, after: string)
    requires IsLastComponent(raw, before + name + after) && IsBlank(before) && IsBlank(after)
    requires name == "" || (!IsWhitespace(name[0]) && !IsWhitespace(name[|name| - 1]))
    ensures SanitizeImportName(raw)
            == if name in ["", ".", ".."]
                  || exists i :: 0 <= i < |name| && (name[i] < ' ' || '\U{007F}' <= name[i] <= '\U{009F}')
               then None else Some(name)
  {
    LastComponentIs(raw, before + name + after);
    TrimOf(before, name, after);
    hide LastComponent, Trim, IsWhitespace, IsLastComponent;
  }

  /** The stem and the extension of a name, split at its last dot; a leading dot does not
      count, and a name without another has no extension. */
  ghost predicate IsStemAndExtension(name: string, stem: string, extension: string) {
    && name == stem + extension
    && (if extension == "" then forall i :: 1 <= i < |name| ==> name[i] != '.'
        else stem != "" && extension[0] == '.' && forall i :: 1 <= i < |extension| ==> extension[i] != '.')
  }

  /** Every name has such a split. */
  lemma StemOf(name: string) returns (stem: string, extension: string)
    ensures IsStemAndExtension(name, stem, extension)
  {
    var n := StemLength(name);
    stem, extension := name[..n], name[n..];
    if extension != "" {
      assert forall i :: 1 <= i < |extension| ==> extension[i] == name[n + i];
    }
  }

  lemma SuffixedIs(name: string, stem: string, extension: string, n: nat)
    requires IsStemAndExtension(name, stem, extension)
    ensures SuffixedName(name, n) == stem + "-" + Decimal(n) + extension
  {
    if extension == "" {
      assert StemLength(name) == |name|;
      assert name[..|name|] == stem && name[|name|..] == extension;
    } else {
      assert name[|stem|] == '.';
      forall i | |stem| < i < |name|
        ensures name[i] != '.'
      {
        assert name[i] == extension[i - |stem|];
      }
      assert LastDot(name) == |stem|;
      assert name[..|stem|] == stem && name[|stem|..] == extension;
    }
  }

  /** A file keeps its name when that is free. Otherwise it takes the least number from 1
      on, put between stem and extension, that makes a free name. */
  lemma PlacedNames(before: map<string, Contents>, files: seq<File>, names: seq<string>, i: nat,
                    stem: string, extension: string) returns (n: nat)
    requires Placed(before, files, names) && i < |names|
    requires IsStemAndExtension(files[i].0, stem, extension)
    ensures names[i] !in before && names[i] !in names[..i]
    ensures n == 0 <==> files[i].0 !in before && files[i].0 !in names[..i]
    ensures names[i] == if n == 0 then files[i].0 else stem + "-" + Decimal(n) + extension
    ensures forall m: nat :: 1 <= m < n ==>
              var tried := stem + "-" + Decimal(m) + extension; tried in before || tried in names[..i]
  {
    hide SuffixedName;
    var name, taken := files[i].0, before.Keys + Names(names[..i]);
    n :| names[i] == Candidate(name, n) && names[i] !in taken
         && forall m: nat :: m < n ==> Candidate(name, m) in taken;
    forall m: nat
      ensures SuffixedName(name, m) == stem + "-" + Decimal(m) + extension
    {
      SuffixedIs(name, stem, extension, m);
    }
    assert n > 0 ==> Candidate(name, 0) in taken;
    forall m: nat | 1 <= m < n
      ensures var tried := stem + "-" + Decimal(m) + extension; tried in before || tried in names[..i]
    {
      assert Candidate(name, m) in taken;
    }
  }
}
