/** The folder provider (`src/modes/folder.ts`): every matched directory
    is a version named after its last path segment, optionally preceded by
    an entry for the project root. Globbing is not modelled: the matched
    paths are a parameter. */
module FolderMode {
  import opened Types
  import Discover

  /** The `includeRootAs` option as written in the configuration: a
      version whose fields other than `base` may be missing. */
  datatype RootEntry = RootEntry(
    base: string,
    name: Option<string>,
    src: Option<string>,
    date: Option<int>,
    isLatest: Option<bool>)

  /** The option's default value. */
  const DefaultIncludeRootAs: Option<RootEntry> := Some(RootEntry(Root, None, None, None, None))

  /** The option after its transform: missing fields take their defaults
      (the name "Root", the working directory, the latest flag). */
  function RootVersion(entry: Option<RootEntry>, cwd: string): (root: Option<Version>)
    ensures root.None? <==> entry.None?
  {
    match entry
    case None => None
    case Some(e) => Some(Version(e.base, e.name.GetOr("Root"), Some(e.src.GetOr(cwd)), e.date, e.isLatest.GetOr(true), None))
  }

  /** Left at its default, the option is the root of the site, named
      "Root", built from the working directory and flagged latest. In a
      given entry each field is defaulted on its own: a given field wins,
      and a missing one takes the same default. */
  lemma RootVersionDefaults(entry: RootEntry, cwd: string)
    ensures RootVersion(DefaultIncludeRootAs, cwd) == Some(Version(Root, "Root", Some(cwd), None, true, None))
    ensures var v := RootVersion(Some(entry), cwd).value;
      && v.base == entry.base
      && (entry.name.Some? ==> v.name == entry.name.value)
      && (entry.name.None? ==> v.name == "Root")
      && (entry.src.Some? ==> v.src == entry.src)
      && (entry.src.None? ==> v.src == Some(cwd))
      && (entry.isLatest.Some? ==> v.isLatest == entry.isLatest.value)
      && (entry.isLatest.None? ==> v.isLatest)
      && v.date == entry.date
  {
  }

  // ---------------------------------------------------------------------
  // Base names
  // ---------------------------------------------------------------------

  /** The path without its trailing separators. */
  function StripTrailing(p: string): (r: string)
    ensures |r| <= |p| && r == p[..|r|]
    ensures r == [] || r[|r| - 1] != '/'
    ensures forall k :: |r| <= k < |p| ==> p[k] == '/'
    decreases |p|
  {
    if p != [] && p[|p| - 1] == '/' then StripTrailing(p[..|p| - 1]) else p
  }

  /** The text after the last separator. */
  function LastSegment(s: string): (r: string)
    ensures '/' !in r
    ensures |r| <= |s| && r == s[|s| - |r|..]
    ensures |r| < |s| ==> s[|s| - |r| - 1] == '/'
    decreases |s|
  {
    if s == [] || s[|s| - 1] == '/' then []
    else LastSegment(s[..|s| - 1]) + [s[|s| - 1]]
  }

  /** `path.basename` on `/`-separated paths: the last segment once
      trailing separators are dropped. */
  function Basename(p: string): string {
    LastSegment(StripTrailing(p))
  }

  lemma {:induction false} LastSegmentOfPlain(dir: string, name: string)
    requires '/' !in name
    ensures LastSegment(dir + "/" + name) == name
    decreases |name|
  {
    var s := dir + "/" + name;
    if name == [] {
      assert s[|s| - 1] == '/';
    } else {
      var front := name[..|name| - 1];
      assert s[..|s| - 1] == dir + "/" + front;
      LastSegmentOfPlain(dir, front);
      assert front + [name[|name| - 1]] == name;
    }
  }

  lemma {:induction false} StripTrailingOfPlain(p: string, n: nat)
    requires p == [] || p[|p| - 1] != '/'
    ensures StripTrailing(p + seq(n, _ => '/')) == p
    decreases n
  {
    var s := p + seq(n, _ => '/');
    if n == 0 {
      assert s == p;
    } else {
      assert s[..|s| - 1] == p + seq(n - 1, _ => '/');
      StripTrailingOfPlain(p, n - 1);
    }
  }

  /** The base name never contains a separator, and it is the name of the
      directory whatever the parent path and however many trailing
      separators follow it. */
  lemma BasenameOfDirectory(dir: string, name: string, n: nat)
    requires name != [] && '/' !in name
    ensures '/' !in Basename(dir + "/" + name + seq(n, _ => '/'))
    ensures Basename(dir + "/" + name + seq(n, _ => '/')) == name
  {
    var p := dir + "/" + name;
    assert p[|p| - 1] == name[|name| - 1];
    StripTrailingOfPlain(p, n);
    LastSegmentOfPlain(dir, name);
  }

  // ---------------------------------------------------------------------
  // discover
  // ---------------------------------------------------------------------

  /** The version of one matched directory. */
  function FolderVersion(p: string): Version {
    Version("/" + Basename(p) + "/", Basename(p), Some(p), None, false, None)
  }

  function FolderVersions(paths: seq<string>): (vs: seq<Version>)
    ensures |vs| == |paths|
    ensures forall k :: 0 <= k < |paths| ==> vs[k] == FolderVersion(paths[k])
  {
    seq(|paths|, k requires 0 <= k < |paths| => FolderVersion(paths[k]))
  }

  /** The folder provider's candidates: the root entry, if any, then one
      version per distinct matched path in order of first match. Every
      version after the root entry is the version of a matched path, and
      every matched path yields exactly one of them. */
  function DiscoverFolders(includeRootAs: Option<RootEntry>, cwd: string, paths: seq<string>): (vs: seq<Version>)
    ensures var root := RootVersion(includeRootAs, cwd);
      var offset := if root.Some? then 1 else 0;
      && |vs| == offset + |Dedup(paths)|
      && (root.Some? ==> vs[0] == root.value)
      && vs[offset..] == FolderVersions(Dedup(paths))
      && (forall k :: offset <= k < |vs| ==>
            vs[k].src.Some? && vs[k].src.value in paths && vs[k] == FolderVersion(vs[k].src.value))
      && (forall p :: p in paths ==> BuiltOnceFrom(vs[offset..], p))
  {
    var root := RootVersion(includeRootAs, cwd);
    var rest := FolderVersions(Dedup(paths));
    EachPathOnce(paths);
    if root.Some? then
      assert ([root.value] + rest)[1..] == rest;
      [root.value] + rest
    else
      rest
  }

  /** A directory's version has a well-formed base other than the root,
      made of its name, which holds no separator. */
  lemma FolderVersionShape(p: string)
    ensures var v := FolderVersion(p);
      && WellFormedBase(v.base) && v.base != Root
      && v.base == "/" + v.name + "/" && '/' !in v.name
      && v.src == Some(p) && !v.isLatest && v.date.None?
  {
    var v := FolderVersion(p);
    assert |v.base| >= 2;
  }

  /** Exactly one of `fs` is built from the path `p`. */
  predicate BuiltOnceFrom(fs: seq<Version>, p: string) {
    exists k :: 0 <= k < |fs| && fs[k].src == Some(p) &&
      forall j :: 0 <= j < |fs| && fs[j].src == Some(p) ==> j == k
  }

  /** A matched path yields exactly one version. */
  lemma PathBuiltOnce(paths: seq<string>, p: string)
    requires p in paths
    ensures BuiltOnceFrom(FolderVersions(Dedup(paths)), p)
  {
    var distinct := Dedup(paths);
    var fs := FolderVersions(distinct);
    var i :| 0 <= i < |paths| && paths[i] == p;
    assert paths[i] in distinct;
    var d :| 0 <= d < |distinct| && distinct[d] == p;
    assert fs[d].src == Some(p);
    forall j | 0 <= j < |fs| && fs[j].src == Some(p) ensures j == d {
      assert fs[j] == FolderVersion(distinct[j]);
      assert distinct[j] == distinct[d];
    }
  }

  /** The versions after the root entry: each comes from a matched path,
      and every matched path yields exactly one of them, however often it
      was matched. */
  lemma EachPathOnce(paths: seq<string>)
    ensures var fs := FolderVersions(Dedup(paths));
      && (forall k :: 0 <= k < |fs| ==>
            fs[k].src.Some? && fs[k].src.value in paths && fs[k] == FolderVersion(fs[k].src.value))
      && (forall p :: p in paths ==> BuiltOnceFrom(fs, p))
  {
    var distinct := Dedup(paths);
    var fs := FolderVersions(distinct);
    forall p | p in paths ensures BuiltOnceFrom(fs, p) {
      PathBuiltOnce(paths, p);
    }
    forall k | 0 <= k < |fs|
      ensures fs[k].src.Some? && fs[k].src.value in paths && fs[k] == FolderVersion(fs[k].src.value)
    {
      assert fs[k] == FolderVersion(distinct[k]);
      assert distinct[k] in paths;
    }
  }

  /** The candidates of the folder provider at its defaults: the root is
      first and is the only version flagged latest or at the root. */
  lemma DefaultRootIsOnlyLatest(cwd: string, paths: seq<string>)
    ensures var vs := DiscoverFolders(DefaultIncludeRootAs, cwd, paths);
      && vs[0] == Version(Root, "Root", Some(cwd), None, true, None)
      && forall k :: 1 <= k < |vs| ==> !vs[k].isLatest && vs[k].base != Root
  {
    var vs := DiscoverFolders(DefaultIncludeRootAs, cwd, paths);
    RootVersionDefaults(RootEntry(Root, None, None, None, None), cwd);
    var fs := FolderVersions(Dedup(paths));
    forall k | 1 <= k < |vs| ensures !vs[k].isLatest && vs[k].base != Root {
      assert vs[k] == fs[k - 1];
      FolderVersionShape(Dedup(paths)[k - 1]);
    }
  }

  /** With the folder defaults and no configured latest or default base,
      whatever order sorting chose, the root entry is both the latest and
      the default version as long as it was not excluded. */
  lemma DefaultsResolveToRoot(cwd: string, paths: seq<string>, sorted: seq<Version>)
    requires multiset(sorted) <= multiset(DiscoverFolders(DefaultIncludeRootAs, cwd, paths))
    requires Version(Root, "Root", Some(cwd), None, true, None) in sorted
    ensures Discover.LatestBase(Discover.Unset, sorted) == Root
    ensures Discover.DefaultBase(Discover.Unset, sorted, Root) == Root
  {
    FlaggedAreRoot(cwd, paths, sorted);
    var r :| 0 <= r < |sorted| && sorted[r] == Version(Root, "Root", Some(cwd), None, true, None);
    assert sorted[r].isLatest && sorted[r].base == Root;
    assert Discover.Requested(Discover.Unset, sorted).None?;
    var latest := Discover.LatestBase(Discover.Unset, sorted);
    assert exists k :: 0 <= k < |sorted| && sorted[k].isLatest && latest == sorted[k].base;
  }

  lemma FlaggedAreRoot(cwd: string, paths: seq<string>, sorted: seq<Version>)
    requires multiset(sorted) <= multiset(DiscoverFolders(DefaultIncludeRootAs, cwd, paths))
    ensures forall k :: 0 <= k < |sorted| && sorted[k].isLatest ==> sorted[k].base == Root
  {
    var vs := DiscoverFolders(DefaultIncludeRootAs, cwd, paths);
    DefaultRootIsOnlyLatest(cwd, paths);
    forall k | 0 <= k < |sorted| && sorted[k].isLatest ensures sorted[k].base == Root {
      assert sorted[k] in multiset(sorted);
      assert sorted[k] in vs;
    }
  }
}
