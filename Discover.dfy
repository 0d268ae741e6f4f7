/** The version resolution engine of `src/discover.ts`: it filters the
    provider's candidates by the exclusion rules, sorts them by the
    configured strategy, resolves the latest and the default base, marks
    the versions accordingly and refuses duplicate bases. */
module Discover {
  import opened Types

  // ---------------------------------------------------------------------
  // Exclusion
  // ---------------------------------------------------------------------

  /** An exclusion rule: a base compared exactly, or a regular expression,
      of which the model keeps only its `test` as a pure predicate. */
  datatype ExcludeRule = Exact(base: string) | Pattern(test: string -> bool)

  predicate RuleMatches(rule: ExcludeRule, base: string) {
    match rule
    case Exact(b) => b == base
    case Pattern(test) => test(base)
  }

  predicate Excluded(rules: seq<ExcludeRule>, base: string) {
    exists k :: 0 <= k < |rules| && RuleMatches(rules[k], base)
  }

  /** The `filter` of the candidates: a version is kept, as often as it
      occurs, exactly when no rule matches its base; the survivors keep
      their order. */
  function FilterExcluded(vs: seq<Version>, rules: seq<ExcludeRule>): (kept: seq<Version>)
    ensures forall v :: multiset(kept)[v] == if Excluded(rules, v.base) then 0 else multiset(vs)[v]
    ensures (forall k :: 0 <= k < |vs| ==> !Excluded(rules, vs[k].base)) ==> kept == vs
  {
    if vs == [] then []
    else
      var rest := FilterExcluded(vs[1..], rules);
      assert vs == [vs[0]] + vs[1..];
      if Excluded(rules, vs[0].base) then rest else [vs[0]] + rest
  }

  /** Filtering a concatenation filters each part: the survivors keep
      their relative order. */
  lemma {:induction false} FilterExcludedAppend(a: seq<Version>, b: seq<Version>, rules: seq<ExcludeRule>)
    ensures FilterExcluded(a + b, rules) == FilterExcluded(a, rules) + FilterExcluded(b, rules)
    decreases |a|
  {
    if a == [] {
      assert a + b == b;
    } else {
      var ab := a + b;
      assert ab[0] == a[0] && ab[1..] == a[1..] + b;
      FilterExcludedAppend(a[1..], b, rules);
      var front := FilterExcluded(a[1..], rules);
      var back := FilterExcluded(b, rules);
      if !Excluded(rules, a[0].base) {
        assert [a[0]] + (front + back) == ([a[0]] + front) + back;
      }
    }
  }

  /** One more candidate is appended to the survivors exactly when no rule
      matches its base. */
  lemma FilterExcludedSnoc(vs: seq<Version>, v: Version, rules: seq<ExcludeRule>)
    ensures FilterExcluded(vs + [v], rules) ==
      FilterExcluded(vs, rules) + (if Excluded(rules, v.base) then [] else [v])
  {
    FilterExcludedAppend(vs, [v], rules);
    assert [v][1..] == [];
  }

  // ---------------------------------------------------------------------
  // Comparators
  // ---------------------------------------------------------------------

  datatype Family = Alpha | Date | Num
  datatype Direction = Asc | Desc

  /** `none`, `random`, one of `{alpha,date,num}_{asc,desc}`, or a custom
      comparator. */
  datatype SortStrategy =
    | Keep
    | Random
    | Preset(family: Family, direction: Direction)
    | Custom(compare: (Version, Version) -> int)

  /** The family comparators. `alpha` and `num` stand for the two
      `Intl.Collator` instances, which the model takes as parameters; a
      missing date counts as time zero. */
  function FamilyCompare(family: Family, alpha: (string, string) -> int, num: (string, string) -> int,
                         a: Version, b: Version): int
  {
    match family
    case Alpha => alpha(a.base, b.base)
    case Date => a.date.GetOr(0) - b.date.GetOr(0)
    case Num => num(a.base, b.base)
  }

  /** `wrapped`: a version with the root base compares after everything,
      otherwise the family comparator decides. */
  function Pinned(family: Family, alpha: (string, string) -> int, num: (string, string) -> int,
                  a: Version, b: Version): int
  {
    if a.base == Root then 1
    else if b.base == Root then -1
    else FamilyCompare(family, alpha, num, a, b)
  }

  /** The preset comparator: `*_asc` is `wrapped(a, b)`, `*_desc` is
      `wrapped(b, a)`. */
  function PresetOrder(family: Family, direction: Direction,
                       alpha: (string, string) -> int, num: (string, string) -> int): (Version, Version) -> int
  {
    match direction
    case Asc => (a: Version, b: Version) => Pinned(family, alpha, num, a, b)
    case Desc => (a: Version, b: Version) => Pinned(family, alpha, num, b, a)
  }

  /** A descending preset is the ascending one with its arguments swapped. */
  lemma DescSwapsAsc(family: Family, alpha: (string, string) -> int, num: (string, string) -> int,
                     a: Version, b: Version)
    ensures PresetOrder(family, Desc, alpha, num)(a, b) == PresetOrder(family, Asc, alpha, num)(b, a)
  {
  }

  /** A missing date sorts exactly like the timestamp 0. */
  lemma MissingDateIsZero(alpha: (string, string) -> int, num: (string, string) -> int, a: Version, b: Version)
    requires a.date.None?
    ensures FamilyCompare(Date, alpha, num, a, b) == FamilyCompare(Date, alpha, num, a.(date := Some(0)), b)
  {
  }

  // ---------------------------------------------------------------------
  // Sorting
  // ---------------------------------------------------------------------

  ghost predicate SortedBy(s: seq<Version>, cmp: (Version, Version) -> int) {
    forall k :: 0 <= k < |s| - 1 ==> cmp(s[k], s[k + 1]) <= 0
  }

  /** The comparator never says "after" both ways for two positions of `s`. */
  ghost predicate Antisymmetric(s: seq<Version>, cmp: (Version, Version) -> int) {
    forall i, j :: 0 <= i < |s| && 0 <= j < |s| && i != j && cmp(s[i], s[j]) > 0 ==> cmp(s[j], s[i]) <= 0
  }

  /** `x` goes before the first element it does not compare after. */
  function Insert(x: Version, t: seq<Version>, cmp: (Version, Version) -> int): (r: seq<Version>)
    ensures |r| == |t| + 1
    ensures multiset(r) == multiset(t) + multiset{x}
    ensures r[0] == x || (t != [] && r[0] == t[0])
  {
    if t == [] then [x]
    else if cmp(x, t[0]) <= 0 then [x] + t
    else
      assert t == [t[0]] + t[1..];
      [t[0]] + Insert(x, t[1..], cmp)
  }

  /** `Array.prototype.sort` with a comparator, as a stable insertion sort:
      the result is a rearrangement of the input. */
  function SortBy(s: seq<Version>, cmp: (Version, Version) -> int): (r: seq<Version>)
    ensures |r| == |s|
    ensures multiset(r) == multiset(s)
  {
    if s == [] then []
    else
      assert s == [s[0]] + s[1..];
      Insert(s[0], SortBy(s[1..], cmp), cmp)
  }

  lemma {:induction false} InsertSorted(x: Version, t: seq<Version>, cmp: (Version, Version) -> int)
    requires SortedBy(t, cmp)
    requires forall y :: y in t && cmp(x, y) > 0 ==> cmp(y, x) <= 0
    ensures SortedBy(Insert(x, t, cmp), cmp)
  {
    if t != [] && cmp(x, t[0]) > 0 {
      var tail := t[1..];
      assert forall k :: 0 <= k < |tail| ==> tail[k] == t[k + 1];
      InsertSorted(x, tail, cmp);
      var r := Insert(x, tail, cmp);
      assert cmp(t[0], r[0]) <= 0;
    }
  }

  /** Under a comparator that is antisymmetric on the input, the sort
      really sorts. */
  lemma {:induction false} SortBySorted(s: seq<Version>, cmp: (Version, Version) -> int)
    requires Antisymmetric(s, cmp)
    ensures SortedBy(SortBy(s, cmp), cmp)
  {
    if s != [] {
      var tail := s[1..];
      assert Antisymmetric(tail, cmp) by {
        forall i, j | 0 <= i < |tail| && 0 <= j < |tail| && i != j && cmp(tail[i], tail[j]) > 0
          ensures cmp(tail[j], tail[i]) <= 0
        {
          assert tail[i] == s[i + 1] && tail[j] == s[j + 1];
        }
      }
      SortBySorted(tail, cmp);
      var t := SortBy(tail, cmp);
      forall y | y in t && cmp(s[0], y) > 0
        ensures cmp(y, s[0]) <= 0
      {
        assert y in multiset(t);
        assert y in multiset(tail);
        assert y in tail;
        var k :| 0 <= k < |tail| && tail[k] == y;
        assert s[k + 1] == y;
      }
      InsertSorted(s[0], t, cmp);
    }
  }

  /** At most one position holds the root base. */
  ghost predicate AtMostOneRoot(s: seq<Version>) {
    forall i, j :: 0 <= i < |s| && 0 <= j < |s| && s[i].base == Root && s[j].base == Root ==> i == j
  }

  /** A collator never puts each of two strings after the other. */
  ghost predicate Consistent(c: (string, string) -> int) {
    forall x, y :: c(x, y) > 0 ==> c(y, x) <= 0
  }

  lemma PresetAntisymmetric(s: seq<Version>, family: Family, direction: Direction,
                            alpha: (string, string) -> int, num: (string, string) -> int)
    requires AtMostOneRoot(s)
    requires family == Alpha ==> Consistent(alpha)
    requires family == Num ==> Consistent(num)
    ensures Antisymmetric(s, PresetOrder(family, direction, alpha, num))
  {
    var cmp := PresetOrder(family, direction, alpha, num);
    forall i, j | 0 <= i < |s| && 0 <= j < |s| && i != j && cmp(s[i], s[j]) > 0
      ensures cmp(s[j], s[i]) <= 0
    {
      var a, b := s[i], s[j];
      if a.base != Root && b.base != Root {
        match family
        case Alpha => assert alpha(a.base, b.base) > 0 ==> alpha(b.base, a.base) <= 0;
        case Num => assert num(a.base, b.base) > 0 ==> num(b.base, a.base) <= 0;
        case Date =>
      }
    }
  }

  /** Under `*_asc` the root version ends up last. */
  lemma RootSortsLast(s: seq<Version>, family: Family, alpha: (string, string) -> int, num: (string, string) -> int)
    requires AtMostOneRoot(s) && HasBase(s, Root)
    requires family == Alpha ==> Consistent(alpha)
    requires family == Num ==> Consistent(num)
    ensures var r := SortBy(s, PresetOrder(family, Asc, alpha, num));
            |r| == |s| && r[|r| - 1].base == Root
  {
    var cmp := PresetOrder(family, Asc, alpha, num);
    PresetAntisymmetric(s, family, Asc, alpha, num);
    SortBySorted(s, cmp);
    var r := SortBy(s, cmp);
    AscRootOnlyLast(r, family, alpha, num);
    var p := RootPosition(s, r);
  }

  /** Under `*_desc` the root version ends up first. */
  lemma RootSortsFirst(s: seq<Version>, family: Family, alpha: (string, string) -> int, num: (string, string) -> int)
    requires AtMostOneRoot(s) && HasBase(s, Root)
    requires family == Alpha ==> Consistent(alpha)
    requires family == Num ==> Consistent(num)
    ensures var r := SortBy(s, PresetOrder(family, Desc, alpha, num));
            |r| == |s| && r[0].base == Root
  {
    var cmp := PresetOrder(family, Desc, alpha, num);
    PresetAntisymmetric(s, family, Desc, alpha, num);
    SortBySorted(s, cmp);
    var r := SortBy(s, cmp);
    DescRootOnlyFirst(r, family, alpha, num);
    var p := RootPosition(s, r);
  }

  /** In a list sorted by an `*_asc` preset, a root version can only be last. */
  lemma AscRootOnlyLast(r: seq<Version>, family: Family, alpha: (string, string) -> int, num: (string, string) -> int)
    requires SortedBy(r, PresetOrder(family, Asc, alpha, num))
    ensures forall k :: 0 <= k < |r| - 1 ==> r[k].base != Root
  {
    forall k | 0 <= k < |r| - 1 ensures r[k].base != Root {
      assert PresetOrder(family, Asc, alpha, num)(r[k], r[k + 1]) <= 0;
    }
  }

  /** In a list sorted by a `*_desc` preset, a root version can only be first. */
  lemma DescRootOnlyFirst(r: seq<Version>, family: Family, alpha: (string, string) -> int, num: (string, string) -> int)
    requires SortedBy(r, PresetOrder(family, Desc, alpha, num))
    ensures forall k :: 1 <= k < |r| ==> r[k].base != Root
  {
    forall k | 1 <= k < |r| ensures r[k].base != Root {
      assert PresetOrder(family, Desc, alpha, num)(r[k - 1], r[k]) <= 0;
    }
  }

  /** A rearrangement of a list with a root version holds one too. */
  lemma RootPosition(s: seq<Version>, r: seq<Version>) returns (p: nat)
    requires HasBase(s, Root) && multiset(r) == multiset(s)
    ensures p < |r| && r[p].base == Root
  {
    var k :| 0 <= k < |s| && s[k].base == Root;
    assert s[k] in multiset(r);
    assert s[k] in r;
    var q :| 0 <= q < |r| && r[q] == s[k];
    p := q;
  }

  /** Two tags dated 2020-01-01 and 2021-01-01 come out newest first under
      `date_desc`. */
  lemma DateDescExample(alpha: (string, string) -> int, num: (string, string) -> int)
    ensures var v1 := Version("/v1.0/", "v1.0", None, Some(1577836800000), false, None);
            var v2 := Version("/v2.0/", "v2.0", None, Some(1609459200000), false, None);
            SortBy([v1, v2], PresetOrder(Date, Desc, alpha, num)) == [v2, v1]
  {
    var v1 := Version("/v1.0/", "v1.0", None, Some(1577836800000), false, None);
    var v2 := Version("/v2.0/", "v2.0", None, Some(1609459200000), false, None);
    var cmp := PresetOrder(Date, Desc, alpha, num);
    assert [v1, v2][1..] == [v2];
    assert SortBy([v2], cmp) == [v2];
    assert cmp(v1, v2) > 0;
    assert Insert(v1, [v2], cmp) == [v2] + Insert(v1, [], cmp);
  }

  // ---------------------------------------------------------------------
  // Fisher-Yates
  // ---------------------------------------------------------------------

  /** `picks[k]` is the index drawn at step `k`, which swaps position
      `n - 1 - k`; it lies in `[0, n - 1 - k]`. */
  predicate PicksFit(picks: seq<nat>, n: nat) {
    |picks| <= n && forall k :: 0 <= k < |picks| ==> picks[k] < n - k
  }

  /** A complete run draws once for every `i` from `n - 1` down to `1`. */
  predicate ValidPicks(picks: seq<nat>, n: nat) {
    PicksFit(picks, n) && |picks| == (if n == 0 then 0 else n - 1)
  }

  function Swap(s: seq<Version>, i: nat, j: nat): (r: seq<Version>)
    requires i < |s| && j < |s|
    ensures |r| == |s|
  {
    s[i := s[j]][j := s[i]]
  }

  /** The list after the steps recorded in `picks`. */
  function Shuffled(s: seq<Version>, picks: seq<nat>): (r: seq<Version>)
    requires PicksFit(picks, |s|)
    ensures |r| == |s|
    decreases |picks|
  {
    if picks == [] then s
    else
      var k := |picks| - 1;
      Swap(Shuffled(s, picks[..k]), |s| - 1 - k, picks[k])
  }

  lemma SwapPermutes(s: seq<Version>, i: nat, j: nat)
    requires i < |s| && j < |s|
    ensures multiset(Swap(s, i, j)) == multiset(s)
  {
    if i != j {
      var t := s[i := s[j]];
      assert multiset(t) == multiset(s) - multiset{s[i]} + multiset{s[j]};
      assert multiset(t[j := s[i]]) == multiset(t) - multiset{s[j]} + multiset{s[i]};
    }
  }

  /** Every shuffle is a rearrangement of its input. */
  lemma {:induction false} ShuffledPermutes(s: seq<Version>, picks: seq<nat>)
    requires PicksFit(picks, |s|)
    ensures multiset(Shuffled(s, picks)) == multiset(s)
    decreases |picks|
  {
    if picks != [] {
      var k := |picks| - 1;
      ShuffledPermutes(s, picks[..k]);
      SwapPermutes(Shuffled(s, picks[..k]), |s| - 1 - k, picks[k]);
    }
  }

  /** The `random` strategy: the Fisher-Yates loop over a copy of the list.
      `Math.random` is the nondeterministic choice of `j`; the draws are
      returned so that the result can be stated. */
  method Shuffle(s: seq<Version>) returns (r: seq<Version>, picks: seq<nat>)
    ensures ValidPicks(picks, |s|)
    ensures r == Shuffled(s, picks)
    ensures multiset(r) == multiset(s)
  {
    var a := new Version[|s|](k requires 0 <= k < |s| => s[k]);
    picks := [];
    var i := |s| - 1;
    while i > 0
      invariant |s| == 0 ==> i == -1
      invariant |s| > 0 ==> 0 <= i < |s| && |picks| == |s| - 1 - i
      invariant PicksFit(picks, |s|)
      invariant a[..] == Shuffled(s, picks)
    {
      var j :| 0 <= j <= i;
      ghost var before := a[..];
      var tmp := a[i];
      a[i] := a[j];
      a[j] := tmp;
      assert a[..] == Swap(before, i, j);
      assert picks + [j] == picks + [j] && (picks + [j])[..|picks|] == picks;
      picks := picks + [j];
      i := i - 1;
    }
    r := a[..];
    ShuffledPermutes(s, picks);
  }

  /** What `sorted` is, strategy by strategy. */
  ghost predicate SortOutcome(strategy: SortStrategy, alpha: (string, string) -> int, num: (string, string) -> int,
                              unsorted: seq<Version>, sorted: seq<Version>)
  {
    && multiset(sorted) == multiset(unsorted)
    && (strategy.Keep? ==> sorted == unsorted)
    && (strategy.Random? ==> exists picks :: ValidPicks(picks, |unsorted|) && sorted == Shuffled(unsorted, picks))
    && (strategy.Preset? ==> sorted == SortBy(unsorted, PresetOrder(strategy.family, strategy.direction, alpha, num)))
    && (strategy.Custom? ==> sorted == SortBy(unsorted, strategy.compare))
  }

  /** Sorting by the configured strategy, always on a copy. */
  method SortVersions(unsorted: seq<Version>, strategy: SortStrategy,
                      alpha: (string, string) -> int, num: (string, string) -> int)
    returns (sorted: seq<Version>)
    ensures SortOutcome(strategy, alpha, num, unsorted, sorted)
    ensures multiset(sorted) == multiset(unsorted)
  {
    match strategy
    case Keep =>
      sorted := unsorted;
    case Random =>
      var picks;
      sorted, picks := Shuffle(unsorted);
    case Preset(family, direction) =>
      sorted := SortBy(unsorted, PresetOrder(family, direction, alpha, num));
    case Custom(compare) =>
      sorted := SortBy(unsorted, compare);
  }

  // ---------------------------------------------------------------------
  // Latest and default
  // ---------------------------------------------------------------------

  /** `latestVersion` / `defaultVersion`: an explicit base, a resolver over
      the sorted list (`None` for `undefined`), or unset. */
  datatype BaseChoice = Fixed(base: string) | Resolver(resolve: seq<Version> -> Option<string>) | Unset

  /** What the configured choice yields before the built-in fallbacks. */
  function Requested(choice: BaseChoice, sorted: seq<Version>): Option<string> {
    match choice
    case Fixed(b) => Some(b)
    case Resolver(resolve) => resolve(sorted)
    case Unset => None
  }

  /** The latest base: the configured choice, else the first version a
      provider flagged, else the first sorted version. */
  function LatestBase(choice: BaseChoice, sorted: seq<Version>): (latest: string)
    requires sorted != []
    ensures Requested(choice, sorted).Some? ==> latest == Requested(choice, sorted).value
    ensures Requested(choice, sorted).None? ==>
      || (exists k :: 0 <= k < |sorted| && sorted[k].isLatest && latest == sorted[k].base
                     && forall j :: 0 <= j < k ==> !sorted[j].isLatest)
      || ((forall k :: 0 <= k < |sorted| ==> !sorted[k].isLatest) && latest == sorted[0].base)
  {
    match Requested(choice, sorted)
    case Some(b) => b
    case None =>
      match FirstIndex(sorted, (v: Version) => v.isLatest)
      case Some(k) => sorted[k].base
      case None => sorted[0].base
  }

  /** The default base: the configured choice, else the root base if some
      version has it, else the latest base. */
  function DefaultBase(choice: BaseChoice, sorted: seq<Version>, latest: string): (defaultBase: string)
    ensures Requested(choice, sorted).Some? ==> defaultBase == Requested(choice, sorted).value
    ensures Requested(choice, sorted).None? && HasBase(sorted, Root) ==> defaultBase == Root
    ensures Requested(choice, sorted).None? && !HasBase(sorted, Root) ==> defaultBase == latest
  {
    match Requested(choice, sorted)
    case Some(b) => b
    case None =>
      match FirstIndex(sorted, (v: Version) => v.base == Root)
      case Some(k) => sorted[k].base
      case None => latest
  }

  /** Without a configured answer the latest base is always discovered, so
      the "not discovered" failure needs an explicit choice. */
  lemma FallbackLatestDiscovered(choice: BaseChoice, sorted: seq<Version>)
    requires sorted != [] && Requested(choice, sorted).None?
    ensures HasBase(sorted, LatestBase(choice, sorted))
  {
  }

  /** Likewise for the default base, once the latest base was found. */
  lemma FallbackDefaultDiscovered(choice: BaseChoice, sorted: seq<Version>, latest: string)
    requires HasBase(sorted, latest) && Requested(choice, sorted).None?
    ensures HasBase(sorted, DefaultBase(choice, sorted, latest))
  {
  }

  // ---------------------------------------------------------------------
  // Marking and duplicate bases
  // ---------------------------------------------------------------------

  /** One iteration of the marking loop: a version with the latest base is
      flagged (an existing flag stays), one with the default base moves to
      the root. */
  function Mark(v: Version, latest: string, defaultBase: string): Version {
    v.(isLatest := v.isLatest || v.base == latest,
       base := if v.base == defaultBase then Root else v.base)
  }

  /** Marking flags every version that had the latest base, clears no flag,
      sends every version that had the default base to the root, leaves
      every other base alone and changes no other field. */
  function MarkAll(vs: seq<Version>, latest: string, defaultBase: string): (r: seq<Version>)
    ensures |r| == |vs|
    ensures forall k :: 0 <= k < |vs| ==> (r[k].isLatest <==> vs[k].isLatest || vs[k].base == latest)
    ensures forall k :: 0 <= k < |vs| && vs[k].base == defaultBase ==> r[k].base == Root
    ensures forall k :: 0 <= k < |vs| && vs[k].base != defaultBase ==> r[k].base == vs[k].base
    ensures forall k :: 0 <= k < |vs| ==> r[k].name == vs[k].name && r[k].src == vs[k].src
                                          && r[k].date == vs[k].date && r[k].data == vs[k].data
  {
    seq(|vs|, k requires 0 <= k < |vs| => Mark(vs[k], latest, defaultBase))
  }

  /** The names of the versions that use base `b`, in list order. */
  function NamesWithBase(vs: seq<Version>, b: string): (names: seq<string>)
    ensures |names| <= |vs|
    decreases |vs|
  {
    if vs == [] then []
    else
      var last := vs[|vs| - 1];
      NamesWithBase(vs[..|vs| - 1], b) + (if last.base == b then [last.name] else [])
  }

  /** One entry of the aggregate error: a base and every version using it. */
  datatype BaseConflict = BaseConflict(base: string, names: seq<string>)

  /** The conflicts among `bases`, in their order. */
  function ConflictsOver(vs: seq<Version>, bases: seq<string>): (cs: seq<BaseConflict>)
    ensures forall c :: c in cs ==> c.base in bases && c.names == NamesWithBase(vs, c.base) && |c.names| > 1
    ensures forall b :: b in bases && |NamesWithBase(vs, b)| > 1 ==> BaseConflict(b, NamesWithBase(vs, b)) in cs
    decreases |bases|
  {
    if bases == [] then []
    else
      var b := bases[|bases| - 1];
      var names := NamesWithBase(vs, b);
      var front := bases[..|bases| - 1];
      assert forall x :: x in bases <==> x in front || x == b;
      ConflictsOver(vs, front) + (if |names| > 1 then [BaseConflict(b, names)] else [])
  }

  lemma ConflictsOverSnoc(vs: seq<Version>, bases: seq<string>, b: string)
    ensures ConflictsOver(vs, bases + [b]) == ConflictsOver(vs, bases) +
      (if |NamesWithBase(vs, b)| > 1 then [BaseConflict(b, NamesWithBase(vs, b))] else [])
  {
    assert (bases + [b])[..|bases|] == bases;
  }

  /** The entries of the aggregate error, one per base in order of first
      use. */
  function Conflicts(vs: seq<Version>): seq<BaseConflict> {
    ConflictsOver(vs, Dedup(Bases(vs)))
  }

  lemma {:induction false} NamesOfTwo(vs: seq<Version>, i: nat, j: nat)
    requires i < j < |vs| && vs[i].base == vs[j].base
    ensures |NamesWithBase(vs, vs[i].base)| >= 2
    decreases |vs|
  {
    var prefix := vs[..|vs| - 1];
    if j < |vs| - 1 {
      assert prefix[i] == vs[i] && prefix[j] == vs[j];
      NamesOfTwo(prefix, i, j);
    } else {
      assert prefix[i] == vs[i];
      NamesOfOne(prefix, i);
    }
  }

  lemma {:induction false} NamesOfOne(vs: seq<Version>, i: nat)
    requires i < |vs|
    ensures |NamesWithBase(vs, vs[i].base)| >= 1
    decreases |vs|
  {
    var prefix := vs[..|vs| - 1];
    if i < |vs| - 1 {
      assert prefix[i] == vs[i];
      NamesOfOne(prefix, i);
    }
  }

  lemma {:induction false} NamesOfDistinct(vs: seq<Version>, b: string)
    requires Distinct(Bases(vs))
    ensures |NamesWithBase(vs, b)| <= 1
    decreases |vs|
  {
    if vs != [] {
      var prefix := vs[..|vs| - 1];
      assert Bases(prefix) == Bases(vs)[..|vs| - 1];
      NamesOfDistinct(prefix, b);
      if vs[|vs| - 1].base == b {
        NamesAbsent(prefix, b);
      }
    }
  }

  lemma {:induction false} NamesAbsent(vs: seq<Version>, b: string)
    requires !HasBase(vs, b)
    ensures NamesWithBase(vs, b) == []
    decreases |vs|
  {
    if vs != [] {
      NamesAbsent(vs[..|vs| - 1], b);
    }
  }

  lemma {:induction false} NoConflictsOver(vs: seq<Version>, bases: seq<string>)
    requires forall k :: 0 <= k < |bases| ==> |NamesWithBase(vs, bases[k])| <= 1
    ensures ConflictsOver(vs, bases) == []
    decreases |bases|
  {
    if bases != [] {
      NoConflictsOver(vs, bases[..|bases| - 1]);
    }
  }

  /** No conflict is reported exactly when the bases are pairwise
      distinct. */
  lemma ConflictFreeIffDistinct(vs: seq<Version>)
    ensures Conflicts(vs) == [] <==> Distinct(Bases(vs))
  {
    var bases := Dedup(Bases(vs));
    if Distinct(Bases(vs)) {
      forall k | 0 <= k < |bases| ensures |NamesWithBase(vs, bases[k])| <= 1 {
        NamesOfDistinct(vs, bases[k]);
      }
      NoConflictsOver(vs, bases);
    } else {
      var i, j :| 0 <= i < j < |vs| && Bases(vs)[i] == Bases(vs)[j];
      NamesOfTwo(vs, i, j);
      assert Bases(vs)[i] in bases;
      assert BaseConflict(vs[i].base, NamesWithBase(vs, vs[i].base)) in Conflicts(vs);
    }
  }

  /** A base is named in the aggregate error exactly when more than one
      version uses it, and its entry names all of them. */
  lemma ConflictsExact(vs: seq<Version>, b: string)
    ensures (exists c :: c in Conflicts(vs) && c.base == b) <==> |NamesWithBase(vs, b)| > 1
    ensures forall c :: c in Conflicts(vs) ==> c.names == NamesWithBase(vs, c.base)
  {
    var bases := Dedup(Bases(vs));
    if |NamesWithBase(vs, b)| > 1 {
      NamesPresent(vs, b);
      var k :| 0 <= k < |vs| && vs[k].base == b;
      assert Bases(vs)[k] in bases;
      assert BaseConflict(b, NamesWithBase(vs, b)) in Conflicts(vs);
    }
  }

  lemma {:induction false} NamesPresent(vs: seq<Version>, b: string)
    requires |NamesWithBase(vs, b)| > 0
    ensures HasBase(vs, b)
  {
    if !HasBase(vs, b) {
      NamesAbsent(vs, b);
    }
  }

  /** What one more version adds to the bases in order of first use. */
  lemma BasesStep(vs: seq<Version>, v: Version)
    ensures Dedup(Bases(vs + [v])) ==
            if v.base in Dedup(Bases(vs)) then Dedup(Bases(vs)) else Dedup(Bases(vs)) + [v.base]
  {
    assert Bases(vs + [v]) == Bases(vs) + [v.base];
    assert (Bases(vs) + [v.base])[..|vs|] == Bases(vs);
  }

  /** What one more version adds to the names of one base. */
  lemma NamesStep(vs: seq<Version>, v: Version, c: string)
    ensures NamesWithBase(vs + [v], c) == NamesWithBase(vs, c) + (if v.base == c then [v.name] else [])
  {
    assert (vs + [v])[..|vs|] == vs;
  }

  datatype DiscoverError =
    | NoVersions
    | LatestNotDiscovered(base: string)
    | DefaultNotDiscovered(base: string)
    | DuplicateBases(conflicts: seq<BaseConflict>)

  /** The grouping built by the marking loop: the bases of `vs` in order of
      first use, and for each the names of the versions that use it. */
  ghost predicate Grouped(vs: seq<Version>, order: seq<string>, groups: map<string, seq<string>>) {
    && order == Dedup(Bases(vs))
    && (forall b :: b in groups <==> b in order)
    && (forall b :: b in groups ==> groups[b] == NamesWithBase(vs, b))
  }

  /** The grouping the marking loop builds over `vs`, one version at a time
      (`Map.prototype.set` of a new one-element list for a base not seen
      before, a `push` onto the existing list otherwise). */
  ghost function Grouping(vs: seq<Version>): (seq<string>, map<string, seq<string>>)
    decreases |vs|
  {
    if vs == [] then ([], map[])
    else AddToGroups(Grouping(vs[..|vs| - 1]), vs[|vs| - 1])
  }

  /** One version added to a grouping. */
  function AddToGroups(g: (seq<string>, map<string, seq<string>>), v: Version): (seq<string>, map<string, seq<string>>) {
    var (order, groups) := g;
    if v.base !in groups then (order + [v.base], groups[v.base := [v.name]])
    else (order, groups[v.base := groups[v.base] + [v.name]])
  }

  lemma GroupingSnoc(vs: seq<Version>, v: Version)
    ensures Grouping(vs + [v]) == AddToGroups(Grouping(vs), v)
  {
    assert (vs + [v])[..|vs|] == vs;
  }

  /** A base has a group exactly when it is in the order. */
  lemma {:induction false} GroupingKeysAt(vs: seq<Version>, b: string)
    ensures b in Grouping(vs).1 <==> b in Grouping(vs).0
    decreases |vs|
  {
    if vs != [] {
      GroupingKeysAt(vs[..|vs| - 1], b);
    }
  }

  /** The order lists the bases in order of first use. */
  lemma {:induction false} GroupingOrder(vs: seq<Version>)
    ensures Grouping(vs).0 == Dedup(Bases(vs))
    decreases |vs|
  {
    if vs != [] {
      var front := vs[..|vs| - 1];
      var v := vs[|vs| - 1];
      assert vs == front + [v];
      GroupingOrder(front);
      GroupingKeysAt(front, v.base);
      BasesStep(front, v);
    }
  }

  /** A base without a group is used by no version. */
  lemma NotGroupedNoNames(vs: seq<Version>, b: string)
    requires b !in Grouping(vs).1
    ensures NamesWithBase(vs, b) == []
  {
    GroupingKeysAt(vs, b);
    GroupingOrder(vs);
    assert !HasBase(vs, b) by {
      forall k | 0 <= k < |vs| ensures vs[k].base != b {
        assert Bases(vs)[k] in Dedup(Bases(vs));
      }
    }
    NamesAbsent(vs, b);
  }

  /** The group of a base holds the names of the versions using it, in
      order. */
  lemma {:induction false} GroupingNamesAt(vs: seq<Version>, b: string)
    ensures b in Grouping(vs).1 ==> Grouping(vs).1[b] == NamesWithBase(vs, b)
    decreases |vs|
  {
    if vs != [] {
      var front := vs[..|vs| - 1];
      var v := vs[|vs| - 1];
      assert vs == front + [v];
      GroupingNamesAt(front, b);
      NamesStep(front, v, b);
      if b == v.base && b !in Grouping(front).1 {
        NotGroupedNoNames(front, b);
      }
    }
  }

  /** The grouping lists every base once, in order of first use, with the
      names of all the versions using it. */
  lemma GroupingGrouped(vs: seq<Version>)
    ensures Grouped(vs, Grouping(vs).0, Grouping(vs).1)
  {
    GroupingOrder(vs);
    forall b ensures b in Grouping(vs).1 <==> b in Grouping(vs).0 {
      GroupingKeysAt(vs, b);
    }
    forall b | b in Grouping(vs).1 ensures Grouping(vs).1[b] == NamesWithBase(vs, b) {
      GroupingNamesAt(vs, b);
    }
  }

  /** The second loop of the resolution: one conflict per base used more
      than once, in order of first use. */
  method CollectConflicts(vs: seq<Version>, order: seq<string>, groups: map<string, seq<string>>)
    returns (conflicts: seq<BaseConflict>)
    requires order == Dedup(Bases(vs))
    requires forall b :: b in order ==> b in groups && groups[b] == NamesWithBase(vs, b)
    ensures conflicts == Conflicts(vs)
  {
    conflicts := [];
    for k := 0 to |order|
      invariant conflicts == ConflictsOver(vs, order[..k])
    {
      var names := groups[order[k]];
      ConflictsStep(vs, order, k, names);
      if |names| > 1 {
        conflicts := conflicts + [BaseConflict(order[k], names)];
      }
    }
    PrefixWhole(order);
  }

  /** One step of the conflict loop: the next base of `order` adds its
      conflict, if any, after those of the bases before it. */
  lemma ConflictsStep(vs: seq<Version>, order: seq<string>, k: nat, names: seq<string>)
    requires k < |order|
    requires names == NamesWithBase(vs, order[k])
    ensures ConflictsOver(vs, order[..k + 1]) == ConflictsOver(vs, order[..k]) +
      (if |names| > 1 then [BaseConflict(order[k], names)] else [])
  {
    PrefixStep(order, k);
    ConflictsOverSnoc(vs, order[..k], order[k]);
  }

  /** The marking loop of the resolution, on the version objects in place:
      flag the latest, move the default to the root, and group the names by
      final base in order of first use. */
  method MarkAndGroup(a: array<Version>, latest: string, defaultBase: string)
    returns (order: seq<string>, groups: map<string, seq<string>>)
    modifies a
    ensures a[..] == MarkAll(old(a[..]), latest, defaultBase)
    ensures (order, groups) == Grouping(a[..])
  {
    ghost var marked := MarkAll(a[..], latest, defaultBase);
    groups := map[];
    order := [];
    for i := 0 to a.Length
      invariant forall k :: 0 <= k < i ==> a[k] == marked[k]
      invariant forall k :: i <= k < a.Length ==> a[k] == old(a[k])
      invariant (order, groups) == Grouping(marked[..i])
    {
      var v := Mark(a[i], latest, defaultBase);
      a[i] := v;
      PrefixStep(marked, i);
      GroupingSnoc(marked[..i], v);
      var grouping := AddToGroups((order, groups), v);
      order, groups := grouping.0, grouping.1;
    }
    assert a[..] == marked;
    PrefixWhole(marked);
  }

  /** The resolution on a copy of the sorted list: mark and group, then
      report every shared base or hand back the marked list. */
  method ApplyResolution(sorted: seq<Version>, latest: string, defaultBase: string)
    returns (res: Result<seq<Version>, DiscoverError>)
    ensures var marked := MarkAll(sorted, latest, defaultBase);
      && (res.Ok? <==> Conflicts(marked) == [])
      && (res.Ok? ==> res.value == marked)
      && (res.Err? ==> res.error == DuplicateBases(Conflicts(marked)))
  {
    var a := new Version[|sorted|](k requires 0 <= k < |sorted| => sorted[k]);
    assert a[..] == sorted;
    var order, groups := MarkAndGroup(a, latest, defaultBase);
    GroupingGrouped(a[..]);
    var conflicts := CollectConflicts(a[..], order, groups);
    if conflicts == [] {
      res := Ok(a[..]);
    } else {
      res := Err(DuplicateBases(conflicts));
    }
  }

  // ---------------------------------------------------------------------
  // The pipeline
  // ---------------------------------------------------------------------

  datatype DiscoverConfig = DiscoverConfig(
    exclude: seq<ExcludeRule>,
    sortStrategy: SortStrategy,
    latestVersion: BaseChoice,
    defaultVersion: BaseChoice)

  /** Exactly one version is at the root. */
  predicate OneRoot(vs: seq<Version>) {
    exists k :: 0 <= k < |vs| && vs[k].base == Root && forall j :: 0 <= j < |vs| && j != k ==> vs[j].base != Root
  }

  /** The default export of `src/discover.ts`, from the provider's
      candidates. `sorted` is the list after sorting, which the random
      strategy makes nondeterministic. */
  method Discover(candidates: seq<Version>, config: DiscoverConfig,
                  alpha: (string, string) -> int, num: (string, string) -> int)
    returns (res: Result<seq<Version>, DiscoverError>, ghost sorted: seq<Version>)
    ensures var kept := FilterExcluded(candidates, config.exclude);
      && (res == Err(NoVersions) <==> kept == [])
      && (kept != [] ==> SortOutcome(config.sortStrategy, alpha, num, kept, sorted))
    ensures sorted != [] ==>
      var latest := LatestBase(config.latestVersion, sorted);
      var defaultBase := DefaultBase(config.defaultVersion, sorted, latest);
      && (res == Err(LatestNotDiscovered(latest)) <==> !HasBase(sorted, latest))
      && (HasBase(sorted, latest) ==> (res == Err(DefaultNotDiscovered(defaultBase)) <==> !HasBase(sorted, defaultBase)))
      && (HasBase(sorted, latest) && HasBase(sorted, defaultBase) ==>
            var marked := MarkAll(sorted, latest, defaultBase);
            && (res.Ok? <==> Distinct(Bases(marked)))
            && (Distinct(Bases(sorted)) && (defaultBase == Root || !HasBase(sorted, Root)) ==> res.Ok?)
            && (res.Ok? ==> res.value == marked && OneRoot(res.value))
            && (res.Err? ==> res.error == DuplicateBases(Conflicts(marked)) && Conflicts(marked) != []))
    ensures res.Ok? ==> sorted != [] && |res.value| == |sorted| && Distinct(Bases(res.value)) && OneRoot(res.value)
  {
    var kept := FilterExcluded(candidates, config.exclude);
    if kept == [] {
      return Err(NoVersions), [];
    }
    var s := SortVersions(kept, config.sortStrategy, alpha, num);
    sorted := s;
    assert |s| == |kept| by {
      assert |multiset(s)| == |multiset(kept)|;
    }
    var latest := LatestBase(config.latestVersion, s);
    if !HasBase(s, latest) {
      return Err(LatestNotDiscovered(latest)), sorted;
    }
    var defaultBase := DefaultBase(config.defaultVersion, s, latest);
    if !HasBase(s, defaultBase) {
      return Err(DefaultNotDiscovered(defaultBase)), sorted;
    }
    res := ApplyResolution(s, latest, defaultBase);
    ghost var marked := MarkAll(s, latest, defaultBase);
    ConflictFreeIffDistinct(marked);
    if Distinct(Bases(s)) && (defaultBase == Root || !HasBase(s, Root)) {
      MarkKeepsDistinct(s, latest, defaultBase);
    }
    if res.Ok? {
      MarkedOneRoot(s, latest, defaultBase);
    }
  }

  /** After marking, a list whose bases are distinct has the default
      version, and only it, at the root. */
  lemma MarkedOneRoot(sorted: seq<Version>, latest: string, defaultBase: string)
    requires HasBase(sorted, defaultBase)
    requires Distinct(Bases(MarkAll(sorted, latest, defaultBase)))
    ensures OneRoot(MarkAll(sorted, latest, defaultBase))
  {
    var r := MarkAll(sorted, latest, defaultBase);
    var k :| 0 <= k < |sorted| && sorted[k].base == defaultBase;
    assert r[k].base == Root;
    forall j | 0 <= j < |r| && j != k ensures r[j].base != Root {
      if j < k { assert Bases(r)[j] != Bases(r)[k]; } else { assert Bases(r)[k] != Bases(r)[j]; }
    }
  }

  /** Distinct bases stay distinct after marking unless the default base
      is moved onto a version already at the root. */
  lemma MarkKeepsDistinct(s: seq<Version>, latest: string, defaultBase: string)
    requires Distinct(Bases(s))
    requires defaultBase == Root || !HasBase(s, Root)
    ensures Distinct(Bases(MarkAll(s, latest, defaultBase)))
  {
    var r := MarkAll(s, latest, defaultBase);
    var bs := Bases(s);
    forall i, j | 0 <= i < j < |r| ensures r[i].base != r[j].base {
      assert bs[i] != bs[j];
      if s[i].base == defaultBase {
        assert s[j].base != Root;
      } else if s[j].base == defaultBase {
        assert s[i].base != Root;
      }
    }
  }

  /** A folder list with its root entry and a directory whose base is made
      the default: the bases are distinct, yet marking moves the directory
      onto `/` beside the root entry, so resolution reports a duplicate. */
  lemma DefaultOntoExistingRoot()
    ensures var root := Version(Root, "Root", Some("."), None, true, None);
            var v2 := Version("/v2/", "v2", Some("/docs/v2"), None, false, None);
            var s := [root, v2];
            var latest := LatestBase(Unset, s);
            var defaultBase := DefaultBase(Fixed("/v2/"), s, latest);
            && Distinct(Bases(s)) && latest == Root && defaultBase == "/v2/"
            && HasBase(s, latest) && HasBase(s, defaultBase)
            && Conflicts(MarkAll(s, latest, defaultBase)) != []
  {
    var root := Version(Root, "Root", Some("."), None, true, None);
    var v2 := Version("/v2/", "v2", Some("/docs/v2"), None, false, None);
    var s := [root, v2];
    assert s[0].base == Root && s[0].isLatest && s[1].base == "/v2/";
    var bs := Bases(s);
    assert |bs[0]| != |bs[1]|;
    assert Distinct(bs);
    assert HasBase(s, Root) && HasBase(s, "/v2/");
    var latest := LatestBase(Unset, s);
    assert latest == Root;
    var r := MarkAll(s, latest, "/v2/");
    assert r[0].base == Root && r[1].base == Root;
    ConflictFreeIffDistinct(r);
  }

  /** The latest flag is not exclusive: a provider's flag survives next to
      the flag an explicit `latestVersion` sets. */
  lemma TwoLatestFlags()
    ensures var root := Version(Root, "Root", Some("."), None, true, None);
            var v2 := Version("/v2/", "v2", Some("/docs/v2"), None, false, None);
            var r := MarkAll([root, v2], "/v2/", Root);
            Distinct(Bases(r)) && r[0].isLatest && r[1].isLatest
  {
  }
}
