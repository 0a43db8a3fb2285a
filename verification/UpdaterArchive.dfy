/** Which entry of a release archive the updater installs: the zip and the tar.gz extractor. */
module UpdaterArchive {
  import opened Text

  datatype EntryKind = Regular | Directory | Special

  datatype Entry = Entry(name: string, kind: EntryKind, data: seq<byte>)

  /** filepath.Base: the last element of a slash-separated path. */
  function Base(path: string): string
  {
    if path == "" then "."
    else if forall c <- path :: c == '/' then "/"
    else AfterSlash(StripSlashes(path))
  }

  function StripSlashes(path: string): string
  {
    if path != "" && path[|path| - 1] == '/' then StripSlashes(path[..|path| - 1]) else path
  }

  function AfterSlash(path: string): string
  {
    var parts := Split(path, '/');
    parts[|parts| - 1]
  }

  function First(entries: seq<Entry>, p: Entry -> bool): (r: Option<Entry>)
    ensures r.None? ==> forall e <- entries :: !p(e)
    ensures r.Some? ==> p(r.value) && r.value in entries
  {
    if entries == [] then None
    else if p(entries[0]) then Some(entries[0])
    else First(entries[1..], p)
  }

  function DataOf(e: Option<Entry>): Option<seq<byte>>
  {
    if e.Some? then Some(e.value.data) else None
  }

  function IsFile(): Entry -> bool { (e: Entry) => e.kind != Directory }

  function IsFileNamed(name: string): Entry -> bool { (e: Entry) => e.kind != Directory && Base(e.name) == name }

  function IsRegularNamed(name: string): Entry -> bool
  {
    (e: Entry) => e.kind == Regular && (Base(e.name) == name || name == "")
  }

  function IsRegularNonEmpty(): Entry -> bool { (e: Entry) => e.kind == Regular && e.data != [] }

  function Or(a: Option<Entry>, b: Option<Entry>): Option<Entry> { if a.Some? then a else b }

  /** The first file with the name, else the first file. */
  function ZipChoice(entries: seq<Entry>, name: string): Option<seq<byte>>
  {
    DataOf(Or(First(entries, IsFileNamed(name)), First(entries, IsFile())))
  }

  /** The first regular file with the name, else the first regular file that is not empty. */
  function TarChoice(entries: seq<Entry>, name: string): Option<seq<byte>>
  {
    DataOf(Or(First(entries, IsRegularNamed(name)), First(entries, IsRegularNonEmpty())))
  }

  lemma {:induction false} FirstSnoc(entries: seq<Entry>, e: Entry, p: Entry -> bool)
    ensures First(entries + [e], p) == Or(First(entries, p), if p(e) then Some(e) else None)
  {
    if entries == [] {
      assert entries + [e] == [e];
    } else {
      assert (entries + [e])[1..] == entries[1..] + [e];
      FirstSnoc(entries[1..], e, p);
    }
  }

  lemma FirstUpto(entries: seq<Entry>, i: nat, p: Entry -> bool)
    requires i < |entries|
    ensures First(entries[..i + 1], p) == Or(First(entries[..i], p), if p(entries[i]) then Some(entries[i]) else None)
  {
    assert entries[..i + 1] == entries[..i] + [entries[i]];
    FirstSnoc(entries[..i], entries[i], p);
  }

  lemma {:induction false} FirstExtends(entries: seq<Entry>, i: nat, p: Entry -> bool)
    requires i <= |entries| && First(entries[..i], p).Some?
    ensures First(entries, p) == First(entries[..i], p)
  {
    if !p(entries[0]) {
      assert entries[..i][1..] == entries[1..][..i - 1];
      FirstExtends(entries[1..], i - 1, p);
    }
  }

  /** `e` is the first entry with the property. */
  ghost predicate IsFirst(entries: seq<Entry>, p: Entry -> bool, e: Entry)
  {
    exists i | 0 <= i < |entries| :: entries[i] == e && p(e) && forall k :: 0 <= k < i ==> !p(entries[k])
  }

  lemma {:induction false} FirstMeans(entries: seq<Entry>, p: Entry -> bool)
    ensures First(entries, p).None? <==> forall e <- entries :: !p(e)
    ensures First(entries, p).Some? ==> IsFirst(entries, p, First(entries, p).value)
  {
    if entries != [] && !p(entries[0]) {
      FirstMeans(entries[1..], p);
      assert entries == [entries[0]] + entries[1..];
      if First(entries, p).Some? {
        var e := First(entries, p).value;
        var i :| && 0 <= i < |entries[1..]| && entries[1..][i] == e && p(e)
                 && forall k :: 0 <= k < i ==> !p(entries[1..][k]);
        assert entries[i + 1] == e;
        forall k | 0 <= k < i + 1 ensures !p(entries[k]) {
          assert k > 0 ==> entries[k] == entries[1..][k - 1];
        }
      }
    } else if entries != [] {
      assert entries[0] == First(entries, p).value;
    }
  }

  /** The zip extractor yields the bytes of the first entry that is no directory and has the name;
      if there is none, of the first that is no directory; and fails if there is none of these. */
  lemma ZipMeans(entries: seq<Entry>, name: string)
    ensures var r := ZipChoice(entries, name);
      var file := (e: Entry) => !e.kind.Directory?;
      var named := (e: Entry) => !e.kind.Directory? && Base(e.name) == name;
      && (r.None? <==> forall e <- entries :: e.kind.Directory?)
      && (r.Some? && (exists e <- entries :: named(e)) ==> exists e :: IsFirst(entries, named, e) && r.value == e.data)
      && (r.Some? && (forall e <- entries :: !named(e)) ==> exists e :: IsFirst(entries, file, e) && r.value == e.data)
  {
    FirstMeans(entries, IsFile());
    FirstMeans(entries, IsFileNamed(name));
    var file := (e: Entry) => !e.kind.Directory?;
    var named := (e: Entry) => !e.kind.Directory? && Base(e.name) == name;
    var f, n := First(entries, IsFile()), First(entries, IsFileNamed(name));
    assert f.Some? ==> IsFirst(entries, file, f.value);
    assert n.Some? ==> IsFirst(entries, named, n.value);
  }

  /** The tar.gz extractor takes regular files only: the first with the name, or the first at all
      when no name is given; if there is none, the first that is not empty; else it fails. */
  lemma TarMeans(entries: seq<Entry>, name: string)
    ensures var r := TarChoice(entries, name);
      var named := (e: Entry) => e.kind.Regular? && (name == "" || Base(e.name) == name);
      var full := (e: Entry) => e.kind.Regular? && |e.data| > 0;
      && (r.None? <==> forall e <- entries :: !named(e) && !full(e))
      && (r.Some? && (exists e <- entries :: named(e)) ==> exists e :: IsFirst(entries, named, e) && r.value == e.data)
      && (r.Some? && (forall e <- entries :: !named(e)) ==> exists e :: IsFirst(entries, full, e) && r.value == e.data)
  {
    FirstMeans(entries, IsRegularNamed(name));
    FirstMeans(entries, IsRegularNonEmpty());
    var named := (e: Entry) => e.kind.Regular? && (name == "" || Base(e.name) == name);
    var full := (e: Entry) => e.kind.Regular? && |e.data| > 0;
    var n, f := First(entries, IsRegularNamed(name)), First(entries, IsRegularNonEmpty());
    assert n.Some? ==> IsFirst(entries, named, n.value);
    assert f.Some? ==> IsFirst(entries, full, f.value);
  }

  method ExtractZip(entries: seq<Entry>, artifactName: string) returns (r: Option<seq<byte>>)
    ensures r == ZipChoice(entries, artifactName)
  {
    var target: Option<Entry>, fallback: Option<Entry> := None, None;
    var i := 0;
    assert entries[..0] == [];
    while i < |entries|
      invariant 0 <= i <= |entries|
      invariant target == First(entries[..i], IsFileNamed(artifactName)) == None
      invariant fallback == First(entries[..i], IsFile())
      decreases |entries| - i
    {
      var f := entries[i];
      FirstUpto(entries, i, IsFile());
      FirstUpto(entries, i, IsFileNamed(artifactName));
      i := i + 1;
      if f.kind == Directory {
        continue;
      }
      if fallback == None {
        fallback := Some(f);
      }
      if Base(f.name) == artifactName {
        target := Some(f);
        FirstExtends(entries, i, IsFileNamed(artifactName));
        break;
      }
    }
    assert entries[..|entries|] == entries;
    if target == None {
      target := fallback;
    }
    if target == None {
      return None;
    }
    return Some(target.value.data);
  }

  method ExtractTarGz(entries: seq<Entry>, artifactName: string) returns (r: Option<seq<byte>>)
    ensures r == TarChoice(entries, artifactName)
  {
    var fallbackData: seq<byte> := [];
    var i := 0;
    assert entries[..0] == [];
    while i < |entries|
      invariant 0 <= i <= |entries|
      invariant First(entries[..i], IsRegularNamed(artifactName)) == None
      invariant var f := First(entries[..i], IsRegularNonEmpty());
        fallbackData == if f.Some? then f.value.data else []
      decreases |entries| - i
    {
      var header := entries[i];
      FirstUpto(entries, i, IsRegularNonEmpty());
      FirstUpto(entries, i, IsRegularNamed(artifactName));
      i := i + 1;
      if header.kind != Regular {
        continue;
      }
      if Base(header.name) != artifactName && artifactName != "" {
        if |fallbackData| == 0 {
          fallbackData := header.data;
        }
        continue;
      }
      FirstExtends(entries, i, IsRegularNamed(artifactName));
      return Some(header.data);
    }
    assert entries[..|entries|] == entries;
    if |fallbackData| > 0 {
      return Some(fallbackData);
    }
    return None;
  }

  ghost predicate OnlyFilesAndDirectories(entries: seq<Entry>)
  {
    forall e <- entries :: e.kind != Special
  }

  lemma {:induction false} FirstCongruent(entries: seq<Entry>, p: Entry -> bool, q: Entry -> bool)
    requires forall e <- entries :: p(e) == q(e)
    ensures First(entries, p) == First(entries, q)
  {
    if entries != [] {
      assert entries[0] in entries;
      FirstCongruent(entries[1..], p, q);
    }
  }

  lemma {:induction false} FirstNonEmpty(entries: seq<Entry>)
    requires OnlyFilesAndDirectories(entries)
    requires First(entries, IsFile()).Some? ==> First(entries, IsFile()).value.data != []
    ensures First(entries, IsRegularNonEmpty()) == First(entries, IsFile())
  {
    if entries != [] && entries[0].kind == Directory {
      FirstNonEmpty(entries[1..]);
    } else if entries != [] {
      assert entries[0] in entries;
    }
  }

  lemma {:induction false} StripSlashesEnd(path: string)
    ensures var s := StripSlashes(path); s == "" || s[|s| - 1] != '/'
  {
    if path != "" && path[|path| - 1] == '/' {
      StripSlashesEnd(path[..|path| - 1]);
    }
  }

  lemma {:induction false} LastPartNonEmpty(s: string)
    requires s != "" && s[|s| - 1] != '/'
    ensures var parts := Split(s, '/'); parts[|parts| - 1] != ""
  {
    if |s| > 1 {
      LastPartNonEmpty(s[1..]);
    } else {
      assert s[1..] == "";
    }
  }

  lemma {:induction false} StripSlashesKeeps(path: string)
    requires exists c <- path :: c != '/'
    ensures StripSlashes(path) != ""
  {
    if path[|path| - 1] == '/' {
      var c :| c in path && c != '/';
      assert path == path[..|path| - 1] + [path[|path| - 1]];
      StripSlashesKeeps(path[..|path| - 1]);
    }
  }

  /** No path has the empty string as its last element. */
  lemma BaseNeverEmpty(path: string)
    ensures Base(path) != ""
  {
    if path != "" && exists c <- path :: c != '/' {
      StripSlashesKeeps(path);
      StripSlashesEnd(path);
      LastPartNonEmpty(StripSlashes(path));
    }
  }

  /** On archives of regular files and directories, the two extractors install the same bytes,
      or both fail, exactly when no name is asked for, or some file has the name, or there is no
      file at all, or the first file is not empty. */
  lemma ExtractorsAgree(entries: seq<Entry>, name: string)
    requires OnlyFilesAndDirectories(entries)
    ensures ZipChoice(entries, name) == TarChoice(entries, name)
       <==> || name == ""
            || First(entries, IsFileNamed(name)).Some?
            || First(entries, IsFile()).None?
            || First(entries, IsFile()).value.data != []
  {
    if name == "" {
      forall e <- entries ensures !IsFileNamed(name)(e) && IsRegularNamed(name)(e) == IsFile()(e) {
        BaseNeverEmpty(e.name);
      }
      FirstCongruent(entries, IsFile(), IsRegularNamed(name));
    } else {
      FirstCongruent(entries, IsFileNamed(name), IsRegularNamed(name));
      var file := First(entries, IsFile());
      if file.None? || file.value.data != [] {
        FirstNonEmpty(entries);
      }
    }
  }

  /** An archive whose first file is empty: asked for a name that is not there, one extractor
      yields no bytes, and the other the second file. */
  lemma ExtractorsDiffer()
    ensures var entries := [Entry("a", Regular, []), Entry("b", Regular, [1])];
      ZipChoice(entries, "c") == Some([]) && TarChoice(entries, "c") == Some([1])
  {
    var a, b := Entry("a", Regular, []), Entry("b", Regular, [1]);
    BaseOfName("a");
    BaseOfName("b");
    assert [a, b][1..] == [b] && [b][1..] == [];
    assert First([b], IsFileNamed("c")) == None && First([b], IsRegularNamed("c")) == None;
  }

  /** A name without slashes is its own last element. */
  lemma BaseOfName(name: string)
    requires name != "" && '/' !in name
    ensures Base(name) == name
  {
    assert name[0] in name && name[|name| - 1] in name;
    SplitAtSeparator(name, "", '/');
  }

  predicate AllSlashes(s: string) { forall i :: 0 <= i < |s| ==> s[i] == '/' }

  lemma {:induction false} StripTrailing(path: string, slashes: string)
    requires path != "" && path[|path| - 1] != '/' && AllSlashes(slashes)
    ensures StripSlashes(path + slashes) == path
    decreases |slashes|
  {
    var s := path + slashes;
    if slashes == "" {
      assert s == path;
    } else {
      assert s[|s| - 1] == slashes[|slashes| - 1] && s[..|s| - 1] == path + slashes[..|slashes| - 1];
      StripTrailing(path, slashes[..|slashes| - 1]);
    }
  }

  lemma BaseOfTrailing(path: string, slashes: string, name: string)
    requires path != "" && path[|path| - 1] != '/' && AllSlashes(slashes) && AfterSlash(path) == name
    ensures Base(path + slashes) == name
  {
    StripTrailing(path, slashes);
    assert (path + slashes)[|path| - 1] == path[|path| - 1];
    assert path[|path| - 1] in path + slashes;
  }

  /** The last element of any path: what stands after the last slash that is not at the end, and
      two special cases. */
  lemma BaseMeans(dir: string, name: string, slashes: string)
    requires name != "" && '/' !in name && AllSlashes(slashes)
    ensures Base("") == "." && (slashes != "" ==> Base(slashes) == "/")
    ensures Base(name + slashes) == name
    ensures Base(dir + "/" + name + slashes) == name
  {
    var path := dir + "/" + name;
    assert name[|name| - 1] in name && path[|path| - 1] == name[|name| - 1];
    SplitAtSeparator(name, "", '/');
    BaseOfTrailing(name, slashes, name);
    LastAfterSeparator(dir, '/', name);
    assert path == dir + ['/'] + name;
    BaseOfTrailing(path, slashes, name);
  }
}
