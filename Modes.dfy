/** The three providers (`src/modes/index.ts`), their default sort
    strategies and the dispatch of a version's set-up. */
module Modes {
  import opened Types
  import Discover
  import Git
  import FolderMode

  datatype Mode = Branch | Folder | Tag

  /** The `sortStrategy` each provider's configuration defaults to. */
  function DefaultSortStrategy(mode: Mode): Discover.SortStrategy {
    match mode
    case Branch => Discover.Preset(Discover.Date, Discover.Desc)
    case Folder => Discover.Preset(Discover.Alpha, Discover.Asc)
    case Tag => Discover.Preset(Discover.Num, Discover.Desc)
  }

  /** The set-up of a version in each mode: folders never need one, a
      branch always goes through git, and a tag only when it came from git
      (the checkout entry carries no ref data). */
  function ModeSetup(mode: Mode, version: Version, src: string, cwd: string): Git.SetupPlan
    requires mode == Branch ==> version.data.Some?
  {
    match mode
    case Folder => Git.SetupPlan([], [])
    case Branch => Git.Setup(version, src, cwd)
    case Tag => if version.data.Some? then Git.Setup(version, src, cwd) else Git.SetupPlan([], [])
  }

  /** A set-up and its cleanup do nothing exactly for folders, for the tag
      mode's checkout entry and for any version built from the working
      directory; otherwise the cleanup undoes the worktree the set-up made. */
  lemma ModeSetupNoOp(mode: Mode, version: Version, src: string, cwd: string)
    requires mode == Branch ==> version.data.Some?
    ensures var plan := ModeSetup(mode, version, src, cwd);
      && (plan.setup == [] <==> mode == Folder || version.data.None? || src == cwd)
      && (plan.cleanup == [] <==> plan.setup == [])
      && (plan.setup != [] ==>
            plan.setup == [Git.AddWorktree(src, version.data.value.hash)] &&
            plan.cleanup == [Git.RemoveWorktree(src)])
  {
    if version.data.Some? {
      Git.SetupPairs(version, src, cwd);
    }
  }

  /** Sorted alphabetically upwards, a list whose only root version is its
      first element ends with that element. */
  lemma RootEntryLast(vs: seq<Version>, alpha: (string, string) -> int, num: (string, string) -> int)
    requires |vs| > 0 && vs[0].base == Root
    requires forall k :: 1 <= k < |vs| ==> vs[k].base != Root
    requires Discover.Consistent(alpha)
    ensures var sorted := Discover.SortBy(vs, Discover.PresetOrder(Discover.Alpha, Discover.Asc, alpha, num));
      |sorted| == |vs| && sorted[|sorted| - 1] == vs[0]
  {
    assert Discover.AtMostOneRoot(vs);
    assert HasBase(vs, Root);
    Discover.RootSortsLast(vs, Discover.Alpha, alpha, num);
    var sorted := Discover.SortBy(vs, Discover.PresetOrder(Discover.Alpha, Discover.Asc, alpha, num));
    var last := sorted[|sorted| - 1];
    assert last.base == Root;
    assert last in multiset(sorted);
    assert last in vs;
    var j :| 0 <= j < |vs| && vs[j] == last;
    assert vs[j].base == Root;
  }

  /** The folder provider at its defaults: sorted alphabetically upwards,
      its root entry comes last, whatever the directories are called. */
  lemma FolderDefaultsRootLast(cwd: string, paths: seq<string>, alpha: (string, string) -> int, num: (string, string) -> int)
    requires Discover.Consistent(alpha)
    ensures DefaultSortStrategy(Folder) == Discover.Preset(Discover.Alpha, Discover.Asc)
    ensures var vs := FolderMode.DiscoverFolders(FolderMode.DefaultIncludeRootAs, cwd, paths);
      var sorted := Discover.SortBy(vs, Discover.PresetOrder(Discover.Alpha, Discover.Asc, alpha, num));
      |sorted| == |vs| && sorted[|sorted| - 1] == vs[0] && vs[0].base == Root
  {
    var vs := FolderMode.DiscoverFolders(FolderMode.DefaultIncludeRootAs, cwd, paths);
    FolderMode.DefaultRootIsOnlyLatest(cwd, paths);
    RootEntryLast(vs, alpha, num);
  }

  /** The other two providers sort newest or highest first, and put a
      version at the root, if there is one, first. */
  lemma GitModesRootFirst(mode: Mode, vs: seq<Version>, alpha: (string, string) -> int, num: (string, string) -> int)
    requires mode != Folder
    requires Discover.AtMostOneRoot(vs) && HasBase(vs, Root)
    requires mode == Tag ==> Discover.Consistent(num)
    ensures var strategy := DefaultSortStrategy(mode);
      strategy.Preset? && strategy.direction == Discover.Desc &&
      var sorted := Discover.SortBy(vs, Discover.PresetOrder(strategy.family, strategy.direction, alpha, num));
      |sorted| == |vs| && sorted[0].base == Root
  {
    var strategy := DefaultSortStrategy(mode);
    Discover.RootSortsFirst(vs, strategy.family, alpha, num);
  }
}
