/** The build orchestration (`src/build.ts`), run one version at a time
    with no signal arriving: the default version first, then every other
    version in list order, each job skipped once a build has failed; then
    every registered cleanup in reverse order; then one aggregate error of
    the build errors followed by the cleanup errors.

    The mode's set-up, VitePress' build and each cleanup are oracles: the
    outcome of every version's job is given in advance. A version is
    identified by its position in the list (the source keys its cleanup
    registry by object identity). */
module Build {
  import opened Types

  /** Whether the mode's set-up, the VitePress build and the registered
      cleanup of one version throw. */
  datatype JobOutcome = JobOutcome(setupFails: bool, buildFails: bool, cleanupFails: bool)

  /** The job throws before it finishes: its build error is recorded. */
  predicate Fails(o: JobOutcome) {
    o.setupFails || o.buildFails
  }

  datatype BuildConfig = BuildConfig(srcRoot: string, outRoot: string, baseForDefault: string)

  /** A path handed to `path.resolve` or `path.join`, unresolved. */
  datatype PathRef = PathRef(root: string, rel: string)

  /** One call of VitePress' build. */
  datatype BuildCall = BuildCall(version: nat, src: PathRef, outDir: PathRef, base: PathRef)

  datatype RunError = BuildFailed(name: string) | CleanupFailed(name: string)

  /** What a run did and how it ended. */
  datatype RunReport = RunReport(
    started: seq<nat>,
    registered: seq<nat>,
    calls: seq<BuildCall>,
    cleaned: seq<nat>,
    errors: seq<RunError>)

  /** The source directory of a version: its `src`, or `.` followed by its
      base, under `srcRoot`. */
  function SourceDir(config: BuildConfig, v: Version): (p: PathRef)
    ensures p.root == config.srcRoot
    ensures v.src.Some? ==> p.rel == v.src.value
    ensures v.src.None? ==> p.rel == "." + v.base && |p.rel| == |v.base| + 1 && p.rel[1..] == v.base
  {
    PathRef(config.srcRoot, v.src.GetOr("." + v.base))
  }

  function Call(config: BuildConfig, versions: seq<Version>, i: nat): BuildCall
    requires i < |versions|
  {
    var v := versions[i];
    BuildCall(i, SourceDir(config, v), PathRef(config.outRoot, v.base), PathRef(config.baseForDefault, v.base))
  }

  // ---------------------------------------------------------------------
  // The history of a run, as functions of the jobs that started
  // ---------------------------------------------------------------------

  /** Every index in `s` is a position of a list of length `n`. */
  predicate Below(s: seq<nat>, n: nat) {
    forall k :: 0 <= k < |s| ==> s[k] < n
  }

  /** Some started job threw: the abort flag is set. */
  predicate AnyFailed(started: seq<nat>, outcomes: seq<JobOutcome>) {
    exists k :: 0 <= k < |started| && started[k] < |outcomes| && Fails(outcomes[started[k]])
  }

  /** The jobs whose set-up returned, so that their cleanup was stored. */
  function Registered(started: seq<nat>, outcomes: seq<JobOutcome>): (r: seq<nat>)
    requires Below(started, |outcomes|)
    ensures Below(r, |outcomes|)
    ensures forall x :: x in r ==> x in started
    decreases |started|
  {
    if started == [] then []
    else
      var x := started[|started| - 1];
      var front := started[..|started| - 1];
      assert forall y :: y in front ==> y in started;
      Registered(front, outcomes) + (if outcomes[x].setupFails then [] else [x])
  }

  /** One build error per job that threw. */
  function BuildErrorsOf(started: seq<nat>, versions: seq<Version>, outcomes: seq<JobOutcome>): (errors: seq<RunError>)
    requires |outcomes| == |versions| && Below(started, |versions|)
    ensures forall k :: 0 <= k < |errors| ==> errors[k].BuildFailed?
    decreases |started|
  {
    if started == [] then []
    else
      var x := started[|started| - 1];
      BuildErrorsOf(started[..|started| - 1], versions, outcomes) +
        (if Fails(outcomes[x]) then [BuildFailed(versions[x].name)] else [])
  }

  /** One cleanup error per cleanup that threw. */
  function CleanupErrorsOf(cleaned: seq<nat>, versions: seq<Version>, outcomes: seq<JobOutcome>): (errors: seq<RunError>)
    requires |outcomes| == |versions| && Below(cleaned, |versions|)
    ensures forall k :: 0 <= k < |errors| ==> errors[k].CleanupFailed?
    ensures |errors| <= |cleaned|
    decreases |cleaned|
  {
    if cleaned == [] then []
    else
      var x := cleaned[|cleaned| - 1];
      CleanupErrorsOf(cleaned[..|cleaned| - 1], versions, outcomes) +
        (if outcomes[x].cleanupFails then [CleanupFailed(versions[x].name)] else [])
  }

  /** One VitePress call per registered version. */
  function CallsOf(registry: seq<nat>, config: BuildConfig, versions: seq<Version>): (calls: seq<BuildCall>)
    requires Below(registry, |versions|)
    ensures |calls| == |registry|
    ensures forall k :: 0 <= k < |registry| ==> calls[k] == Call(config, versions, registry[k])
  {
    seq(|registry|, k requires 0 <= k < |registry| => Call(config, versions, registry[k]))
  }

  lemma AnyFailedSnoc(s: seq<nat>, x: nat, outcomes: seq<JobOutcome>)
    requires x < |outcomes|
    ensures AnyFailed(s + [x], outcomes) <==> AnyFailed(s, outcomes) || Fails(outcomes[x])
  {
    var t := s + [x];
    if AnyFailed(s, outcomes) {
      var k :| 0 <= k < |s| && s[k] < |outcomes| && Fails(outcomes[s[k]]);
      assert t[k] == s[k];
    }
    if Fails(outcomes[x]) {
      assert t[|s|] == x;
    }
    if AnyFailed(t, outcomes) && !Fails(outcomes[x]) {
      var k :| 0 <= k < |t| && t[k] < |outcomes| && Fails(outcomes[t[k]]);
      assert k < |s| && s[k] == t[k];
    }
  }

  lemma RegisteredSnoc(s: seq<nat>, x: nat, outcomes: seq<JobOutcome>)
    requires Below(s, |outcomes|) && x < |outcomes|
    ensures Below(s + [x], |outcomes|)
    ensures Registered(s + [x], outcomes) == Registered(s, outcomes) + (if outcomes[x].setupFails then [] else [x])
  {
    assert (s + [x])[..|s|] == s;
  }

  lemma BuildErrorsSnoc(s: seq<nat>, x: nat, versions: seq<Version>, outcomes: seq<JobOutcome>)
    requires |outcomes| == |versions| && Below(s, |versions|) && x < |versions|
    ensures Below(s + [x], |versions|)
    ensures BuildErrorsOf(s + [x], versions, outcomes) ==
      BuildErrorsOf(s, versions, outcomes) + (if Fails(outcomes[x]) then [BuildFailed(versions[x].name)] else [])
  {
    assert (s + [x])[..|s|] == s;
  }

  lemma CleanupErrorsSnoc(s: seq<nat>, x: nat, versions: seq<Version>, outcomes: seq<JobOutcome>)
    requires |outcomes| == |versions| && Below(s, |versions|) && x < |versions|
    ensures Below(s + [x], |versions|)
    ensures CleanupErrorsOf(s + [x], versions, outcomes) ==
      CleanupErrorsOf(s, versions, outcomes) + (if outcomes[x].cleanupFails then [CleanupFailed(versions[x].name)] else [])
  {
    assert (s + [x])[..|s|] == s;
  }

  lemma CallsSnoc(s: seq<nat>, x: nat, config: BuildConfig, versions: seq<Version>)
    requires Below(s, |versions|) && x < |versions|
    ensures Below(s + [x], |versions|)
    ensures CallsOf(s + [x], config, versions) == CallsOf(s, config, versions) + [Call(config, versions, x)]
  {
  }

  /** The job state kept across jobs. */
  datatype JobState = JobState(aborted: bool, buildErrors: seq<RunError>, registry: seq<nat>, calls: seq<BuildCall>)

  /** The job state after the given jobs started, one after the other. */
  function Replay(started: seq<nat>, versions: seq<Version>, outcomes: seq<JobOutcome>, config: BuildConfig): (st: JobState)
    requires |outcomes| == |versions| && Below(started, |versions|)
    ensures st.aborted <==> AnyFailed(started, outcomes)
    ensures st.buildErrors == BuildErrorsOf(started, versions, outcomes)
    ensures st.registry == Registered(started, outcomes)
    ensures st.calls == CallsOf(st.registry, config, versions)
  {
    var registry := Registered(started, outcomes);
    JobState(AnyFailed(started, outcomes), BuildErrorsOf(started, versions, outcomes), registry, CallsOf(registry, config, versions))
  }

  /** What one started job does to the job state. */
  function Start(st: JobState, i: nat, versions: seq<Version>, outcomes: seq<JobOutcome>, config: BuildConfig): JobState
    requires i < |versions| && i < |outcomes|
  {
    if outcomes[i].setupFails then
      st.(aborted := true, buildErrors := st.buildErrors + [BuildFailed(versions[i].name)])
    else
      var registered := st.(registry := st.registry + [i], calls := st.calls + [Call(config, versions, i)]);
      if outcomes[i].buildFails then
        registered.(aborted := true, buildErrors := st.buildErrors + [BuildFailed(versions[i].name)])
      else
        registered
  }

  /** Replaying one more job is one more step. */
  lemma ReplaySnoc(s: seq<nat>, x: nat, versions: seq<Version>, outcomes: seq<JobOutcome>, config: BuildConfig)
    requires |outcomes| == |versions| && Below(s, |versions|) && x < |versions|
    requires !AnyFailed(s, outcomes)
    ensures Below(s + [x], |versions|)
    ensures Replay(s + [x], versions, outcomes, config) == Start(Replay(s, versions, outcomes, config), x, versions, outcomes, config)
  {
    AnyFailedSnoc(s, x, outcomes);
    RegisteredSnoc(s, x, outcomes);
    BuildErrorsSnoc(s, x, versions, outcomes);
    CallsSnoc(Registered(s, outcomes), x, config, versions);
  }

  // ---------------------------------------------------------------------
  // The orchestrator
  // ---------------------------------------------------------------------

  /** The state `build.ts` keeps across jobs: the abort flag, the cleanup
      registry (`versionToCleanupMap`), the two error lists, and a record of
      what was done (jobs started, VitePress calls, cleanups run). */
  class Orchestrator {
    const versions: seq<Version>
    const outcomes: seq<JobOutcome>
    const config: BuildConfig

    var aborted: bool
    var buildErrors: seq<RunError>
    var cleanupErrors: seq<RunError>
    var registry: seq<nat>
    var started: seq<nat>
    var calls: seq<BuildCall>
    var cleaned: seq<nat>

    /** The job state is what the started jobs made of it: the abort flag
        is set exactly when one of them threw, each throw left one build
        error, and the registry and the VitePress calls hold exactly the
        jobs whose set-up returned. */
    ghost predicate JobsValid()
      reads this
    {
      && |outcomes| == |versions|
      && Below(started, |versions|)
      && State() == Replay(started, versions, outcomes, config)
    }

    /** The cleanup errors are what the cleanups that ran made of them. */
    ghost predicate CleanupsValid()
      reads this
    {
      && |outcomes| == |versions|
      && Below(cleaned, |versions|)
      && cleanupErrors == CleanupErrorsOf(cleaned, versions, outcomes)
    }

    constructor(versions: seq<Version>, outcomes: seq<JobOutcome>, config: BuildConfig)
      requires |outcomes| == |versions|
      ensures JobsValid() && CleanupsValid()
      ensures this.versions == versions && this.outcomes == outcomes && this.config == config
      ensures !aborted && started == [] && cleaned == [] && buildErrors == [] && cleanupErrors == []
    {
      this.versions := versions;
      this.outcomes := outcomes;
      this.config := config;
      aborted := false;
      buildErrors := [];
      cleanupErrors := [];
      registry := [];
      started := [];
      calls := [];
      cleaned := [];
    }

    /** The job state as one value. */
    function State(): JobState
      reads this
    {
      JobState(aborted, buildErrors, registry, calls)
    }

    /** `build(v)`: nothing once aborted; otherwise run the set-up, store
        its cleanup before building, and on a throw from either record a
        build error and abort. */
    method BuildVersion(i: nat)
      requires i < |versions| && i < |outcomes|
      modifies this
      ensures old(aborted) ==> State() == old(State()) && started == old(started)
      ensures !old(aborted) ==>
        State() == Start(old(State()), i, versions, outcomes, config) && started == old(started) + [i]
      ensures cleaned == old(cleaned) && cleanupErrors == old(cleanupErrors)
    {
      if aborted {
        return;
      }
      started := started + [i];
      var v := versions[i];
      if outcomes[i].setupFails {
        buildErrors := buildErrors + [BuildFailed(v.name)];
        aborted := true;
        return;
      }
      registry := registry + [i];
      calls := calls + [Call(config, versions, i)];
      if outcomes[i].buildFails {
        buildErrors := buildErrors + [BuildFailed(v.name)];
        aborted := true;
      }
    }

    /** One registered cleanup: it runs, and a throw is recorded. */
    method CleanupOne(x: nat)
      requires CleanupsValid() && x < |versions|
      modifies this
      ensures CleanupsValid()
      ensures cleaned == old(cleaned) + [x]
      ensures started == old(started) && registry == old(registry) && aborted == old(aborted)
      ensures buildErrors == old(buildErrors) && calls == old(calls)
    {
      CleanupErrorsSnoc(cleaned, x, versions, outcomes);
      cleaned := cleaned + [x];
      if outcomes[x].cleanupFails {
        cleanupErrors := cleanupErrors + [CleanupFailed(versions[x].name)];
      }
    }

    /** `cleanup()`: every registered cleanup, newest first; a throwing
        cleanup records an error and the others still run. */
    method Cleanup()
      requires CleanupsValid() && Below(registry, |versions|)
      modifies this
      ensures CleanupsValid()
      ensures cleaned == old(cleaned) + Reversed(registry)
      ensures started == old(started) && registry == old(registry) && aborted == old(aborted)
      ensures buildErrors == old(buildErrors) && calls == old(calls)
    {
      var entries := Reversed(registry);
      assert Below(entries, |versions|);
      for k := 0 to |entries|
        invariant CleanupsValid()
        invariant cleaned == old(cleaned) + entries[..k]
        invariant started == old(started) && registry == old(registry) && aborted == old(aborted)
        invariant buildErrors == old(buildErrors) && calls == old(calls)
      {
        CleanupOne(entries[k]);
        PrefixStep(entries, k);
      }
      PrefixWhole(entries);
    }
  }

  // ---------------------------------------------------------------------
  // The run
  // ---------------------------------------------------------------------

  /** The default version: the first one at the root. */
  function DefaultIndex(versions: seq<Version>): (d: nat)
    requires HasBase(versions, Root)
    ensures d < |versions| && versions[d].base == Root
    ensures forall k :: 0 <= k < d ==> versions[k].base != Root
  {
    FirstIndex(versions, (v: Version) => v.base == Root).value
  }

  /** `versions.filter((v) => v !== defaultVersion)` over the first `n`
      positions. */
  function Others(n: nat, d: nat): (r: seq<nat>)
    ensures forall k :: 0 <= k < |r| ==> r[k] < n && r[k] != d
    ensures forall i :: 0 <= i < n && i != d ==> i in r
    ensures forall j, k :: 0 <= j < k < |r| ==> r[j] < r[k]
    ensures |r| == if d < n then n - 1 else n
  {
    if n == 0 then [] else Others(n - 1, d) + (if n - 1 == d then [] else [n - 1])
  }

  /** The order in which jobs are offered. */
  function Offered(versions: seq<Version>): (o: seq<nat>)
    requires HasBase(versions, Root)
    ensures |o| == |versions| && Below(o, |versions|)
    ensures o[0] == DefaultIndex(versions)
    ensures forall i :: 0 <= i < |versions| ==> i in o
  {
    var d := DefaultIndex(versions);
    var others := Others(|versions|, d);
    assert forall i :: 0 <= i < |versions| && i != d ==> i in others;
    assert forall i :: i in others ==> i in [d] + others;
    [d] + others
  }

  /** The jobs that get past the abort check: the offered ones up to and
      including the first that throws. */
  function Attempted(offered: seq<nat>, outcomes: seq<JobOutcome>): seq<nat>
    decreases |offered|
  {
    if offered == [] then []
    else
      var front := Attempted(offered[..|offered| - 1], outcomes);
      if AnyFailed(front, outcomes) then front else front + [offered[|offered| - 1]]
  }

  /** The jobs a run starts. */
  function Started(versions: seq<Version>, outcomes: seq<JobOutcome>): (started: seq<nat>)
    requires |outcomes| == |versions| && HasBase(versions, Root)
    ensures Below(started, |versions|)
  {
    AttemptedPrefix(Offered(versions), outcomes);
    Attempted(Offered(versions), outcomes)
  }

  /** The default export of `src/build.ts` on versions that passed
      discovery (so one of them is at the root). */
  method Run(versions: seq<Version>, outcomes: seq<JobOutcome>, config: BuildConfig) returns (report: RunReport)
    requires |outcomes| == |versions|
    requires HasBase(versions, Root)
    ensures report.started == Started(versions, outcomes)
    ensures report.registered == Registered(report.started, outcomes)
    ensures report.calls == CallsOf(report.registered, config, versions)
    ensures report.cleaned == Reversed(report.registered)
    ensures report.errors ==
      BuildErrorsOf(report.started, versions, outcomes) + CleanupErrorsOf(report.cleaned, versions, outcomes)
  {
    var o := new Orchestrator(versions, outcomes, config);
    var d := DefaultIndex(versions);
    Offer(o, [], d);
    assert [] + [d] == [d];
    var others := Others(|versions|, d);
    if !o.aborted {
      BuildRest(o, d, others);
    } else {
      AttemptedStops([d], others, outcomes);
    }
    assert o.CleanupsValid() && Below(o.registry, |versions|);
    o.Cleanup();
    report := RunReport(o.started, o.registry, o.calls, o.cleaned, o.buildErrors + o.cleanupErrors);
  }

  /** The jobs after the default one (`others`), each in list order; each
      of them does nothing once a build has failed. */
  method BuildRest(o: Orchestrator, d: nat, others: seq<nat>)
    requires o.JobsValid() && Below(others, |o.versions|)
    requires o.started == Attempted([d], o.outcomes) && o.cleaned == [] && o.cleanupErrors == []
    modifies o
    ensures o.JobsValid()
    ensures o.started == Attempted([d] + others, o.outcomes)
    ensures o.cleaned == [] && o.cleanupErrors == []
  {
    ghost var offered := [d];
    for k := 0 to |others|
      invariant offered == [d] + others[..k]
      invariant o.JobsValid()
      invariant o.started == Attempted(offered, o.outcomes)
      invariant o.cleaned == [] && o.cleanupErrors == []
    {
      Offer(o, offered, others[k]);
      offered := offered + [others[k]];
      PrefixStep(others, k);
    }
    PrefixWhole(others);
  }

  /** One more job offered: it starts unless a build already failed, and
      the job state stays what the started jobs made of it. */
  method Offer(o: Orchestrator, ghost offered: seq<nat>, i: nat)
    requires o.JobsValid() && i < |o.versions|
    requires o.started == Attempted(offered, o.outcomes)
    modifies o
    ensures o.JobsValid()
    ensures o.started == Attempted(offered + [i], o.outcomes)
    ensures o.cleaned == old(o.cleaned) && o.cleanupErrors == old(o.cleanupErrors)
  {
    AttemptedSnoc(offered, i, o.outcomes);
    if !o.aborted {
      ReplaySnoc(o.started, i, o.versions, o.outcomes, o.config);
    }
    o.BuildVersion(i);
  }

  lemma AttemptedSnoc(p: seq<nat>, x: nat, outcomes: seq<JobOutcome>)
    ensures Attempted(p + [x], outcomes) ==
      if AnyFailed(Attempted(p, outcomes), outcomes) then Attempted(p, outcomes) else Attempted(p, outcomes) + [x]
  {
    assert (p + [x])[..|p + [x]| - 1] == p;
  }

  /** After a throw, no later job starts. */
  lemma {:induction false} AttemptedStops(p: seq<nat>, q: seq<nat>, outcomes: seq<JobOutcome>)
    requires AnyFailed(Attempted(p, outcomes), outcomes)
    ensures Attempted(p + q, outcomes) == Attempted(p, outcomes)
    decreases |q|
  {
    if q == [] {
      assert p + q == p;
    } else {
      var q' := q[..|q| - 1];
      assert (p + q)[..|p + q| - 1] == p + q';
      AttemptedStops(p, q', outcomes);
    }
  }

  // ---------------------------------------------------------------------
  // What a run does
  // ---------------------------------------------------------------------

  /** No version is offered twice. */
  lemma OfferedOnce(versions: seq<Version>)
    requires HasBase(versions, Root)
    ensures Distinct(Offered(versions))
  {
    var d := DefaultIndex(versions);
    var o := Offered(versions);
    assert o[1..] == Others(|versions|, d);
  }

  /** The jobs that start are a prefix of the offered ones; all but the
      last of them finished, and the last one threw whenever any offered
      job did not start. */
  lemma {:induction false} AttemptedPrefix(offered: seq<nat>, outcomes: seq<JobOutcome>)
    ensures var a := Attempted(offered, outcomes);
      && |a| <= |offered| && a == offered[..|a|]
      && (offered != [] ==> a != [])
      && (forall k :: 0 <= k < |a| - 1 ==> !(a[k] < |outcomes| && Fails(outcomes[a[k]])))
      && (AnyFailed(a, outcomes) <==> a != [] && a[|a| - 1] < |outcomes| && Fails(outcomes[a[|a| - 1]]))
      && (|a| < |offered| ==> AnyFailed(a, outcomes))
    decreases |offered|
  {
    if offered != [] {
      var front := offered[..|offered| - 1];
      AttemptedPrefix(front, outcomes);
      var a := Attempted(offered, outcomes);
      var b := Attempted(front, outcomes);
      assert front[..|b|] == offered[..|b|];
      if !AnyFailed(b, outcomes) {
        assert a == b + [offered[|offered| - 1]];
        assert |b| == |front|;
        assert a == offered[..|a|];
        if a[|a| - 1] < |outcomes| && Fails(outcomes[a[|a| - 1]]) {
          assert AnyFailed(a, outcomes);
        }
      }
    }
  }

  /** The default version starts first; if it throws, nothing else
      starts, and otherwise its cleanup is the first one registered. */
  lemma DefaultBuiltFirst(versions: seq<Version>, outcomes: seq<JobOutcome>)
    requires |outcomes| == |versions| && HasBase(versions, Root)
    ensures var d := DefaultIndex(versions);
      var a := Started(versions, outcomes);
      && a != [] && a[0] == d && versions[d].base == Root
      && (Fails(outcomes[d]) ==> a == [d])
      && (!outcomes[d].setupFails ==> Registered(a, outcomes) != [] && Registered(a, outcomes)[0] == d)
  {
    var d := DefaultIndex(versions);
    var o := Offered(versions);
    OfferedOnce(versions);
    AttemptedPrefix(o, outcomes);
    var a := Started(versions, outcomes);
    assert a[0] == o[0];
    if Fails(outcomes[d]) {
      assert AnyFailed(a, outcomes) by {
        assert a[0] < |outcomes| && Fails(outcomes[a[0]]);
      }
    }
    if !outcomes[d].setupFails {
      RegisteredHead(a, outcomes);
    }
  }

  lemma {:induction false} RegisteredHead(started: seq<nat>, outcomes: seq<JobOutcome>)
    requires Below(started, |outcomes|)
    requires started != [] && !outcomes[started[0]].setupFails
    ensures Registered(started, outcomes) != [] && Registered(started, outcomes)[0] == started[0]
    decreases |started|
  {
    if |started| > 1 {
      var front := started[..|started| - 1];
      RegisteredHead(front, outcomes);
    }
  }

  /** A version joins the registry exactly when its job started and its
      set-up returned, whether or not its build then failed. */
  lemma {:induction false} RegisteredMembers(started: seq<nat>, outcomes: seq<JobOutcome>)
    requires Below(started, |outcomes|)
    ensures forall x :: x in Registered(started, outcomes) <==> x in started && !outcomes[x].setupFails
    decreases |started|
  {
    if started != [] {
      var front := started[..|started| - 1];
      RegisteredMembers(front, outcomes);
      assert started == front + [started[|started| - 1]];
    }
  }

  /** The registry keeps the order of the jobs and holds no version twice
      when no job started twice. */
  lemma {:induction false} RegisteredDistinct(started: seq<nat>, outcomes: seq<JobOutcome>)
    requires Below(started, |outcomes|)
    requires Distinct(started)
    ensures Distinct(Registered(started, outcomes))
    decreases |started|
  {
    if started != [] {
      var front := started[..|started| - 1];
      var x := started[|started| - 1];
      RegisteredDistinct(front, outcomes);
      RegisteredMembers(front, outcomes);
      assert x !in front;
    }
  }

  /** Each version is built at most once, and every registered cleanup
      runs exactly once at the end, the one registered last first. */
  lemma EachOnce(versions: seq<Version>, outcomes: seq<JobOutcome>)
    requires |outcomes| == |versions| && HasBase(versions, Root)
    ensures var a := Started(versions, outcomes);
      var cleaned := Reversed(Registered(a, outcomes));
      && Distinct(a)
      && Distinct(cleaned)
      && (forall x :: x in cleaned <==> x in a && !outcomes[x].setupFails)
  {
    var o := Offered(versions);
    OfferedOnce(versions);
    AttemptedPrefix(o, outcomes);
    var a := Started(versions, outcomes);
    assert Distinct(a) by {
      forall i, j | 0 <= i < j < |a| ensures a[i] != a[j] {
        assert a[i] == o[i] && a[j] == o[j];
      }
    }
    RegisteredDistinct(a, outcomes);
    RegisteredMembers(a, outcomes);
    ReversedMembers(Registered(a, outcomes));
  }

  /** There is a build error exactly when some started job threw. */
  lemma {:induction false} BuildErrorsMembers(started: seq<nat>, versions: seq<Version>, outcomes: seq<JobOutcome>)
    requires |outcomes| == |versions| && Below(started, |versions|)
    ensures BuildErrorsOf(started, versions, outcomes) == [] <==> !AnyFailed(started, outcomes)
    decreases |started|
  {
    if started != [] {
      var front := started[..|started| - 1];
      var x := started[|started| - 1];
      BuildErrorsMembers(front, versions, outcomes);
      assert started == front + [x];
      AnyFailedSnoc(front, x, outcomes);
    }
  }

  /** Jobs of which only the last may throw leave at most its error. */
  lemma BuildErrorsOfLast(a: seq<nat>, versions: seq<Version>, outcomes: seq<JobOutcome>)
    requires |outcomes| == |versions| && Below(a, |versions|)
    requires forall k :: 0 <= k < |a| - 1 ==> !Fails(outcomes[a[k]])
    ensures BuildErrorsOf(a, versions, outcomes) ==
      if a != [] && Fails(outcomes[a[|a| - 1]]) then [BuildFailed(versions[a[|a| - 1]].name)] else []
  {
    if a != [] {
      var front := a[..|a| - 1];
      var x := a[|a| - 1];
      assert a == front + [x];
      assert !AnyFailed(front, outcomes) by {
        forall k | 0 <= k < |front|
          ensures !(front[k] < |outcomes| && Fails(outcomes[front[k]]))
        {
          assert front[k] == a[k];
        }
      }
      BuildErrorsMembers(front, versions, outcomes);
      BuildErrorsSnoc(front, x, versions, outcomes);
    }
  }

  /** A run records at most one build error: the one of the job that
      threw and aborted the rest. */
  lemma AtMostOneBuildError(versions: seq<Version>, outcomes: seq<JobOutcome>)
    requires |outcomes| == |versions| && HasBase(versions, Root)
    ensures var a := Started(versions, outcomes);
      BuildErrorsOf(a, versions, outcomes) ==
        if AnyFailed(a, outcomes) then [BuildFailed(versions[a[|a| - 1]].name)] else []
  {
    AttemptedPrefix(Offered(versions), outcomes);
    BuildErrorsOfLast(Started(versions, outcomes), versions, outcomes);
  }

  /** One cleanup error per cleanup that threw, in the order they ran:
      a throwing cleanup does not stop the ones after it. */
  lemma {:induction false} CleanupErrorsMembers(cleaned: seq<nat>, versions: seq<Version>, outcomes: seq<JobOutcome>)
    requires |outcomes| == |versions| && Below(cleaned, |versions|)
    ensures forall x :: x in cleaned && outcomes[x].cleanupFails ==>
      CleanupFailed(versions[x].name) in CleanupErrorsOf(cleaned, versions, outcomes)
    ensures CleanupErrorsOf(cleaned, versions, outcomes) == [] <==>
      forall k :: 0 <= k < |cleaned| ==> !outcomes[cleaned[k]].cleanupFails
    decreases |cleaned|
  {
    if cleaned != [] {
      var front := cleaned[..|cleaned| - 1];
      CleanupErrorsMembers(front, versions, outcomes);
      assert cleaned == front + [cleaned[|cleaned| - 1]];
    }
  }

  /** Some registered cleanup throws exactly when some cleanup that ran
      threw. */
  lemma CleanupThrows(versions: seq<Version>, outcomes: seq<JobOutcome>)
    requires |outcomes| == |versions| && HasBase(versions, Root)
    ensures var a := Started(versions, outcomes);
      var cleaned := Reversed(Registered(a, outcomes));
      (exists k :: 0 <= k < |cleaned| && outcomes[cleaned[k]].cleanupFails) <==>
      (exists k :: 0 <= k < |a| && !outcomes[a[k]].setupFails && outcomes[a[k]].cleanupFails)
  {
    var a := Started(versions, outcomes);
    var cleaned := Reversed(Registered(a, outcomes));
    EachOnce(versions, outcomes);
    if k :| 0 <= k < |a| && !outcomes[a[k]].setupFails && outcomes[a[k]].cleanupFails {
      assert a[k] in cleaned;
      var j :| 0 <= j < |cleaned| && cleaned[j] == a[k];
      assert outcomes[cleaned[j]].cleanupFails;
    }
    if j :| 0 <= j < |cleaned| && outcomes[cleaned[j]].cleanupFails {
      assert cleaned[j] in a;
      var k :| 0 <= k < |a| && a[k] == cleaned[j];
      assert !outcomes[a[k]].setupFails && outcomes[a[k]].cleanupFails;
    }
  }

  /** The run throws exactly when some job threw or some registered
      cleanup threw. */
  lemma RunFailsIff(versions: seq<Version>, outcomes: seq<JobOutcome>)
    requires |outcomes| == |versions| && HasBase(versions, Root)
    ensures var a := Started(versions, outcomes);
      var cleaned := Reversed(Registered(a, outcomes));
      var errors := BuildErrorsOf(a, versions, outcomes) + CleanupErrorsOf(cleaned, versions, outcomes);
      errors != [] <==>
        (exists k :: 0 <= k < |a| && Fails(outcomes[a[k]])) ||
        (exists k :: 0 <= k < |a| && !outcomes[a[k]].setupFails && outcomes[a[k]].cleanupFails)
  {
    var a := Started(versions, outcomes);
    var cleaned := Reversed(Registered(a, outcomes));
    BuildErrorsMembers(a, versions, outcomes);
    CleanupErrorsMembers(cleaned, versions, outcomes);
    CleanupThrows(versions, outcomes);
  }

  /** The aggregate error lists the build errors before the cleanup
      errors. */
  lemma BuildErrorsFirst(versions: seq<Version>, outcomes: seq<JobOutcome>)
    requires |outcomes| == |versions| && HasBase(versions, Root)
    ensures var a := Started(versions, outcomes);
      var cleaned := Reversed(Registered(a, outcomes));
      var builds := BuildErrorsOf(a, versions, outcomes);
      var errors := builds + CleanupErrorsOf(cleaned, versions, outcomes);
      && (forall i :: 0 <= i < |errors| ==> (errors[i].BuildFailed? <==> i < |builds|))
      && |builds| <= 1
  {
    AtMostOneBuildError(versions, outcomes);
  }
}
