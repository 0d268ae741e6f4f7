/** The git helpers of the branch and tag providers
    (`src/modes/utils/git.ts`): the decoder of `git for-each-ref` output
    framed by NUL characters, the uncommitted-changes test over
    `git status --porcelain`, and the worktree set-up of a version. The git
    process itself is not modelled: its output, the current commit and the
    working directory are parameters. */
module Git {
  import opened Types

  const FullNameQuery: string := "%(refname)"
  const NameQuery: string := "%(refname:short)"
  const HashQuery: string := "%(if)%(*objectname)%(then)%(*objectname)%(else)%(objectname)%(end)"

  /** The placeholders of the three default fields, in key order
      (`fullName`, `name`, `hash`). */
  const DefaultQueries: seq<string> := [FullNameQuery, NameQuery, HashQuery]

  const Nul: char := '\0'

  /** One entry of the caller's `queries` record: a key and the
      `for-each-ref` placeholder whose value it receives. */
  datatype Query = Query(key: string, placeholder: string)

  /** The keys of a record are distinct. */
  predicate DistinctKeys(queries: seq<Query>) {
    forall i, j :: 0 <= i < j < |queries| ==> queries[i].key != queries[j].key
  }

  function QueryPlaceholders(queries: seq<Query>): (r: seq<string>)
    ensures |r| == |queries|
    ensures forall k :: 0 <= k < |queries| ==> r[k] == queries[k].placeholder
  {
    seq(|queries|, k requires 0 <= k < |queries| => queries[k].placeholder)
  }

  // ---------------------------------------------------------------------
  // Placeholders and their columns
  // ---------------------------------------------------------------------

  /** The columns of the format: the default placeholders, then the
      caller's, each placeholder once at its first occurrence. */
  function Placeholders(queries: seq<Query>): (ps: seq<string>)
    ensures |ps| >= 3
  {
    DefaultQueriesDistinct();
    DedupKeepsDistinctFront(DefaultQueries, QueryPlaceholders(queries));
    Dedup(DefaultQueries + QueryPlaceholders(queries))
  }

  /** The columns are distinct, the default placeholders are the first
      three, every requested placeholder has a column, and every column was
      requested. */
  lemma PlaceholderColumns(queries: seq<Query>)
    ensures var ps := Placeholders(queries);
      && Distinct(ps)
      && ps[..3] == DefaultQueries
      && (forall k :: 0 <= k < |queries| ==> queries[k].placeholder in ps)
      && (forall k :: 0 <= k < |ps| ==> ps[k] in DefaultQueries + QueryPlaceholders(queries))
  {
    DefaultQueriesDistinct();
    DedupKeepsDistinctFront(DefaultQueries, QueryPlaceholders(queries));
    RequestedHaveColumns(queries);
  }

  lemma RequestedHaveColumns(queries: seq<Query>)
    ensures forall k :: 0 <= k < |queries| ==>
      queries[k].placeholder in Dedup(DefaultQueries + QueryPlaceholders(queries))
  {
    var all := DefaultQueries + QueryPlaceholders(queries);
    forall k | 0 <= k < |queries| ensures queries[k].placeholder in Dedup(all) {
      assert all[3 + k] == queries[k].placeholder;
    }
  }

  lemma DefaultQueriesDistinct()
    ensures Distinct(DefaultQueries)
  {
    assert |FullNameQuery| == 10 && |NameQuery| == 16 && |HashQuery| == 66;
  }

  /** `placeholders.reduce(...)`: each placeholder to the index of its
      column (a later occurrence would overwrite an earlier one). */
  function IndexMap(ps: seq<string>): (index: map<string, nat>)
    ensures forall p :: p in index <==> p in ps
    ensures forall p :: p in index ==> index[p] < |ps| && ps[index[p]] == p
    decreases |ps|
  {
    if ps == [] then map[]
    else IndexMap(ps[..|ps| - 1])[ps[|ps| - 1] := |ps| - 1]
  }

  /** Over distinct placeholders the index map inverts the column list. */
  lemma IndexMapOfDistinct(ps: seq<string>)
    requires Distinct(ps)
    ensures forall k :: 0 <= k < |ps| ==> ps[k] in IndexMap(ps) && IndexMap(ps)[ps[k]] == k
  {
    var index := IndexMap(ps);
    forall k | 0 <= k < |ps| ensures ps[k] in index && index[ps[k]] == k {
      assert ps[k] in ps;
      assert ps[index[ps[k]]] == ps[k];
    }
  }

  /** Every placeholder the decoder looks up has a column below `width`. */
  predicate Indexes(index: map<string, nat>, queries: seq<Query>, width: nat) {
    && (forall k :: 0 <= k < |DefaultQueries| ==> DefaultQueries[k] in index && index[DefaultQueries[k]] < width)
    && QueriesIndexed(index, queries, width)
  }

  predicate QueriesIndexed(index: map<string, nat>, queries: seq<Query>, width: nat) {
    forall k :: 0 <= k < |queries| ==> queries[k].placeholder in index && index[queries[k].placeholder] < width
  }

  lemma PlaceholdersIndexed(queries: seq<Query>)
    ensures Indexes(IndexMap(Placeholders(queries)), queries, |Placeholders(queries)|)
  {
    var ps := Placeholders(queries);
    PlaceholderColumns(queries);
    forall k | 0 <= k < |DefaultQueries| ensures DefaultQueries[k] in ps {
      assert ps[k] == DefaultQueries[k];
    }
  }

  // ---------------------------------------------------------------------
  // Framing
  // ---------------------------------------------------------------------

  /** The arithmetic self-check: one part before the first record, then
      `1 + P` parts per record. */
  predicate WellFramed(parts: seq<string>, width: nat)
    requires |parts| >= 1
  {
    (|parts| - 1) % (1 + width) == 0
  }

  function RefCount(parts: seq<string>, width: nat): nat
    requires |parts| >= 1
  {
    (|parts| - 1) / (1 + width)
  }

  lemma MulMono(a: nat, b: nat, c: nat)
    requires b <= c
    ensures a * b <= a * c
  {
  }

  lemma WindowBounds(parts: seq<string>, width: nat, i: nat)
    requires |parts| >= 1 && i < RefCount(parts, width)
    ensures (1 + width) * i + 1 + width == (1 + width) * (i + 1)
    ensures (1 + width) * (i + 1) <= |parts| - 1
  {
    var q := RefCount(parts, width);
    MulMono(1 + width, i + 1, q);
    assert (1 + width) * q <= |parts| - 1;
  }

  /** The values of record `i`: the `P` parts after its separator part. */
  function Window(parts: seq<string>, width: nat, i: nat): (values: seq<string>)
    requires |parts| >= 1 && i < RefCount(parts, width)
    ensures |values| == width
  {
    WindowBounds(parts, width, i);
    parts[(1 + width) * i + 1 .. (1 + width) * (i + 1)]
  }

  // ---------------------------------------------------------------------
  // Records
  // ---------------------------------------------------------------------

  datatype GitError = Unparseable | EmptyDefaultField(query: string)

  /** `value || null`. */
  function Field(value: string): (f: Option<string>)
    ensures f.None? <==> value == ""
    ensures f.Some? ==> f.value == value
  {
    if value == "" then None else Some(value)
  }

  /** The caller's fields of one record; an empty value is absent. */
  function CustomFields(values: seq<string>, index: map<string, nat>, queries: seq<Query>): (custom: map<string, Option<string>>)
    requires QueriesIndexed(index, queries, |values|)
    requires DistinctKeys(queries)
    ensures forall k :: 0 <= k < |queries| ==>
      queries[k].key in custom && custom[queries[k].key] == Field(values[index[queries[k].placeholder]])
    decreases |queries|
  {
    if queries == [] then map[]
    else
      var n := |queries| - 1;
      var q := queries[n];
      var front := CustomFields(values, index, queries[..n]);
      assert forall k :: 0 <= k < n ==> queries[..n][k] == queries[k] && queries[k].key != q.key;
      front[q.key := Field(values[index[q.placeholder]])]
  }

  /** The caller's fields are exactly the caller's keys. */
  lemma {:induction false} CustomFieldsKeys(values: seq<string>, index: map<string, nat>, queries: seq<Query>)
    requires QueriesIndexed(index, queries, |values|)
    requires DistinctKeys(queries)
    ensures forall key :: key in CustomFields(values, index, queries) ==>
      exists k :: 0 <= k < |queries| && queries[k].key == key
    decreases |queries|
  {
    if queries != [] {
      var n := |queries| - 1;
      assert forall k :: 0 <= k < n ==> queries[..n][k] == queries[k];
      CustomFieldsKeys(values, index, queries[..n]);
    }
  }

  /** The record read from one window: the default fields must be
      non-empty, checked in key order. */
  function DecodeRecord(values: seq<string>, index: map<string, nat>, queries: seq<Query>): Result<RefData, GitError>
    requires Indexes(index, queries, |values|)
    requires DistinctKeys(queries)
  {
    assert DefaultQueries[0] == FullNameQuery && DefaultQueries[1] == NameQuery && DefaultQueries[2] == HashQuery;
    var fullName := values[index[FullNameQuery]];
    var name := values[index[NameQuery]];
    var hash := values[index[HashQuery]];
    if fullName == "" then Err(EmptyDefaultField(FullNameQuery))
    else if name == "" then Err(EmptyDefaultField(NameQuery))
    else if hash == "" then Err(EmptyDefaultField(HashQuery))
    else Ok(RefData(fullName, name, hash, CustomFields(values, index, queries)))
  }

  /** With the real column list, every placeholder the decoder looks up
      has a column, and the default placeholders are the first three. */
  lemma Columns(queries: seq<Query>)
    ensures var ps := Placeholders(queries);
      && Indexes(IndexMap(ps), queries, |ps|)
      && ps[0] == FullNameQuery && ps[1] == NameQuery && ps[2] == HashQuery
      && forall k :: 0 <= k < |ps| ==> ps[k] in IndexMap(ps) && IndexMap(ps)[ps[k]] == k
  {
    var ps := Placeholders(queries);
    PlaceholderColumns(queries);
    PlaceholdersIndexed(queries);
    IndexMapOfDistinct(ps);
    assert ps[..3][0] == ps[0] && ps[..3][1] == ps[1] && ps[..3][2] == ps[2];
  }

  /** With the real column list, the default fields are the first three
      values of the window, an empty one is fatal and reported first in key
      order, and every caller field is the value of its placeholder's
      column or absent when that value is empty. */
  lemma DecodeRecordColumns(values: seq<string>, queries: seq<Query>)
    requires DistinctKeys(queries)
    requires |values| == |Placeholders(queries)|
    ensures var ps := Placeholders(queries);
      Indexes(IndexMap(ps), queries, |values|) &&
      var r := DecodeRecord(values, IndexMap(ps), queries);
      && (r.Ok? <==> values[0] != "" && values[1] != "" && values[2] != "")
      && (values[0] == "" ==> r == Err(EmptyDefaultField(FullNameQuery)))
      && (values[0] != "" && values[1] == "" ==> r == Err(EmptyDefaultField(NameQuery)))
      && (values[0] != "" && values[1] != "" && values[2] == "" ==> r == Err(EmptyDefaultField(HashQuery)))
      && (r.Ok? ==>
            && r.value.fullName == values[0] && r.value.name == values[1] && r.value.hash == values[2]
            && forall k :: 0 <= k < |queries| ==>
                 exists c :: 0 <= c < |ps| && ps[c] == queries[k].placeholder &&
                   queries[k].key in r.value.custom && r.value.custom[queries[k].key] == Field(values[c]))
  {
    var ps := Placeholders(queries);
    var index := IndexMap(ps);
    Columns(queries);
    var r := DecodeRecord(values, index, queries);
    if r.Ok? {
      var custom := CustomFields(values, index, queries);
      assert r.value.custom == custom;
      forall k | 0 <= k < |queries|
        ensures exists c :: 0 <= c < |ps| && ps[c] == queries[k].placeholder &&
                  queries[k].key in custom && custom[queries[k].key] == Field(values[c])
      {
        var c := CustomFieldColumn(values, queries, k);
      }
    }
  }

  /** The caller's field `k` holds the value of its placeholder's column. */
  lemma CustomFieldColumn(values: seq<string>, queries: seq<Query>, k: nat) returns (c: nat)
    requires DistinctKeys(queries)
    requires |values| == |Placeholders(queries)| && k < |queries|
    ensures var ps := Placeholders(queries);
      QueriesIndexed(IndexMap(ps), queries, |values|) &&
      var custom := CustomFields(values, IndexMap(ps), queries);
      && c < |ps| && ps[c] == queries[k].placeholder
      && queries[k].key in custom && custom[queries[k].key] == Field(values[c])
  {
    var ps := Placeholders(queries);
    Columns(queries);
    c := IndexMap(ps)[queries[k].placeholder];
  }

  /** The version a record becomes: its base is the ref's short name
      between slashes, and it is built from the working directory when the
      ref points at the current commit. */
  function RefVersion(r: RefData, currentCommit: string, cwd: string): Version {
    Version("/" + r.name + "/", r.name, Some(if r.hash == currentCommit then cwd else r.name), None, false, Some(r))
  }

  /** A ref's version has a well-formed base that gives back its name, so
      refs with distinct names get distinct bases; its source is the working
      directory exactly when the ref is at the current commit, unless the
      ref's name is that directory. */
  lemma RefVersionBase(r: RefData, s: RefData, currentCommit: string, cwd: string)
    ensures var v := RefVersion(r, currentCommit, cwd);
      && WellFormedBase(v.base)
      && v.base[1..|v.base| - 1] == r.name
      && (r.hash == currentCommit ==> v.src == Some(cwd))
      && (r.hash != currentCommit ==> v.src == Some(r.name))
    ensures r.name != s.name ==> RefVersion(r, currentCommit, cwd).base != RefVersion(s, currentCommit, cwd).base
  {
    var b := RefVersion(r, currentCommit, cwd).base;
    var c := RefVersion(s, currentCommit, cwd).base;
    assert b[1..|b| - 1] == r.name;
    assert c[1..|c| - 1] == s.name;
  }

  // ---------------------------------------------------------------------
  // getRefData
  // ---------------------------------------------------------------------

  /** Record `i` of the output as the decoder reads it. */
  function Decoded(parts: seq<string>, queries: seq<Query>, i: nat): Result<RefData, GitError>
    requires |parts| >= 1 && DistinctKeys(queries)
    requires i < RefCount(parts, |Placeholders(queries)|)
  {
    PlaceholdersIndexed(queries);
    DecodeRecord(Window(parts, |Placeholders(queries)|, i), IndexMap(Placeholders(queries)), queries)
  }

  /** The body of the record loop: the default fields in key order, each
      fatal when empty, then the caller's fields. */
  method ReadRecord(values: seq<string>, index: map<string, nat>, queries: seq<Query>)
    returns (record: Result<RefData, GitError>)
    requires Indexes(index, queries, |values|)
    requires DistinctKeys(queries)
    ensures record == DecodeRecord(values, index, queries)
    ensures record.Err? ==> record.error.EmptyDefaultField?
  {
    assert DefaultQueries[0] == FullNameQuery && DefaultQueries[1] == NameQuery && DefaultQueries[2] == HashQuery;
    var fullName := values[index[FullNameQuery]];
    if fullName == "" {
      return Err(EmptyDefaultField(FullNameQuery));
    }
    var name := values[index[NameQuery]];
    if name == "" {
      return Err(EmptyDefaultField(NameQuery));
    }
    var hash := values[index[HashQuery]];
    if hash == "" {
      return Err(EmptyDefaultField(HashQuery));
    }
    var custom: map<string, Option<string>> := map[];
    for k := 0 to |queries|
      invariant custom == CustomFields(values, index, queries[..k])
    {
      assert queries[..k + 1][..k] == queries[..k];
      custom := custom[queries[k].key := Field(values[index[queries[k].placeholder]])];
    }
    assert queries[..|queries|] == queries;
    record := Ok(RefData(fullName, name, hash, custom));
  }

  /** `records` are the first records of the output, decoded. */
  predicate DecodedAs(parts: seq<string>, queries: seq<Query>, records: seq<RefData>)
    requires |parts| >= 1 && DistinctKeys(queries)
    decreases |records|
  {
    if records == [] then true
    else
      var n := |records| - 1;
      && n < RefCount(parts, |Placeholders(queries)|)
      && DecodedAs(parts, queries, records[..n])
      && Decoded(parts, queries, n) == Ok(records[n])
  }

  lemma DecodedAsSnoc(parts: seq<string>, queries: seq<Query>, records: seq<RefData>, r: RefData)
    requires |parts| >= 1 && DistinctKeys(queries)
    requires DecodedAs(parts, queries, records) && |records| < RefCount(parts, |Placeholders(queries)|)
    requires Decoded(parts, queries, |records|) == Ok(r)
    ensures DecodedAs(parts, queries, records + [r])
  {
    var rs := records + [r];
    assert rs[..|rs| - 1] == records;
    assert rs[|rs| - 1] == r;
  }

  /** Read position by position: record `j` decodes to `records[j]`. */
  lemma {:induction false} DecodedAt(parts: seq<string>, queries: seq<Query>, records: seq<RefData>, j: nat)
    requires |parts| >= 1 && DistinctKeys(queries)
    requires DecodedAs(parts, queries, records) && j < |records|
    ensures j < RefCount(parts, |Placeholders(queries)|)
    ensures Decoded(parts, queries, j) == Ok(records[j])
    decreases |records|
  {
    var n := |records| - 1;
    if j < n {
      DecodedAt(parts, queries, records[..n], j);
      assert records[..n][j] == records[j];
    } else {
      assert j == n && Decoded(parts, queries, n) == Ok(records[n]);
    }
  }

  lemma DecodedAsEach(parts: seq<string>, queries: seq<Query>, records: seq<RefData>)
    requires |parts| >= 1 && DistinctKeys(queries)
    requires DecodedAs(parts, queries, records)
    ensures |records| <= RefCount(parts, |Placeholders(queries)|)
    ensures forall j :: 0 <= j < |records| ==> Decoded(parts, queries, j) == Ok(records[j])
  {
    if records != [] {
      DecodedAt(parts, queries, records, |records| - 1);
    }
    forall j | 0 <= j < |records| ensures Decoded(parts, queries, j) == Ok(records[j]) {
      DecodedAt(parts, queries, records, j);
    }
  }

  /** Record `i`, read from its window. */
  method ReadWindow(parts: seq<string>, queries: seq<Query>, i: nat) returns (record: Result<RefData, GitError>)
    requires |parts| >= 1 && DistinctKeys(queries) && i < RefCount(parts, |Placeholders(queries)|)
    ensures record == Decoded(parts, queries, i)
    ensures record.Err? ==> record.error.EmptyDefaultField?
  {
    var ps := Placeholders(queries);
    PlaceholdersIndexed(queries);
    record := ReadRecord(Window(parts, |ps|, i), IndexMap(ps), queries);
  }

  /** The record loop of `getRefData` over well-framed output: decode the
      windows in order, stopping at the first record with an empty default
      field. `decoded` are the records read before it stopped. */
  method DecodeRecords(parts: seq<string>, queries: seq<Query>)
    returns (res: Result<seq<RefData>, GitError>, ghost decoded: seq<RefData>)
    requires |parts| >= 1 && DistinctKeys(queries)
    ensures DecodedAs(parts, queries, decoded)
    ensures res.Ok? ==> res.value == decoded && |decoded| == RefCount(parts, |Placeholders(queries)|)
    ensures res.Err? ==>
      && res.error.EmptyDefaultField?
      && |decoded| < RefCount(parts, |Placeholders(queries)|)
      && Decoded(parts, queries, |decoded|) == Err(res.error)
  {
    var refCount := RefCount(parts, |Placeholders(queries)|);
    var result: seq<RefData> := [];
    for i := 0 to refCount
      invariant |result| == i
      invariant DecodedAs(parts, queries, result)
    {
      var record := ReadWindow(parts, queries, i);
      if record.Err? {
        return Err(record.error), result;
      }
      DecodedAsSnoc(parts, queries, result, record.value);
      result := result + [record.value];
    }
    return Ok(result), result;
  }

  /** `getRefData` after the git call: split the output at NUL, check the
      framing, decode the records in order and turn them into versions.
      Stops at the first record with an empty default field. */
  method GetRefData(stdout: string, queries: seq<Query>, currentCommit: string, cwd: string)
    returns (res: Result<seq<Version>, GitError>)
    requires DistinctKeys(queries)
    ensures res == Err(Unparseable) <==> !WellFramed(Split(stdout, Nul), |Placeholders(queries)|)
    ensures res.Ok? ==>
      var parts := Split(stdout, Nul);
      && |res.value| == RefCount(parts, |Placeholders(queries)|)
      && forall i :: 0 <= i < |res.value| ==>
           Decoded(parts, queries, i).Ok? && res.value[i] == RefVersion(Decoded(parts, queries, i).value, currentCommit, cwd)
    ensures res.Err? && res.error != Unparseable ==>
      var parts := Split(stdout, Nul);
      exists i :: 0 <= i < RefCount(parts, |Placeholders(queries)|) && Decoded(parts, queries, i) == Err(res.error) &&
        forall j :: 0 <= j < i ==> Decoded(parts, queries, j).Ok?
    ensures var parts := Split(stdout, Nul);
      (&& WellFramed(parts, |Placeholders(queries)|)
       && forall i :: 0 <= i < RefCount(parts, |Placeholders(queries)|) ==> Decoded(parts, queries, i).Ok?)
      ==> res.Ok?
  {
    var parts := Split(stdout, Nul);
    if !WellFramed(parts, |Placeholders(queries)|) {
      return Err(Unparseable);
    }
    var records, decoded := DecodeRecords(parts, queries);
    DecodedAsEach(parts, queries, decoded);
    if records.Err? {
      return Err(records.error);
    }
    var refs := records.value;
    res := Ok(seq(|refs|, k requires 0 <= k < |refs| => RefVersion(refs[k], currentCommit, cwd)));
  }

  // ---------------------------------------------------------------------
  // The output git produces
  // ---------------------------------------------------------------------

  /** The parts of well-framed output: a gap part (empty at the ends, the
      newline between two refs) before each record and after the last. */
  function Layout(rows: seq<seq<string>>, gaps: seq<string>): (parts: seq<string>)
    requires |gaps| == |rows| + 1
    decreases |rows|
  {
    if rows == [] then [gaps[0]]
    else Layout(rows[..|rows| - 1], gaps[..|rows|]) + rows[|rows| - 1] + [gaps[|rows|]]
  }

  lemma MulAtLeast(a: int, d: int)
    requires a > 0 && d >= 1
    ensures a * d >= a
  {
  }

  lemma MulAtMost(a: int, d: int)
    requires a > 0 && d <= -1
    ensures a * d <= -a
  {
  }

  lemma DivOfMultiple(a: nat, n: nat)
    requires a > 0
    ensures (a * n) % a == 0 && (a * n) / a == n
  {
    var q := (a * n) / a;
    var r := (a * n) % a;
    var d := n - q;
    assert a * d == a * n - a * q == r;
    if d >= 1 {
      MulAtLeast(a, d);
    }
    if d <= -1 {
      MulAtMost(a, d);
    }
  }

  /** A window of a framed prefix is the same window of the whole. */
  lemma WindowOfPrefix(front: seq<string>, tail: seq<string>, width: nat, i: nat)
    requires |front| >= 1 && i < RefCount(front, width) && i < RefCount(front + tail, width)
    ensures Window(front + tail, width, i) == Window(front, width, i)
  {
    WindowBounds(front, width, i);
    WindowBounds(front + tail, width, i);
  }

  /** One more row after `n - 1` framed rows is the last of `n` windows. */
  lemma LastWindow(front: seq<string>, row: seq<string>, gap: string, width: nat, n: nat)
    requires n >= 1 && |front| == 1 + (1 + width) * (n - 1) && |row| == width
    ensures |front + row + [gap]| == 1 + (1 + width) * n
    ensures WellFramed(front + row + [gap], width) && RefCount(front + row + [gap], width) == n
    ensures Window(front + row + [gap], width, n - 1) == row
  {
    var parts := front + row + [gap];
    assert (1 + width) * (n - 1) + (1 + width) == (1 + width) * n;
    DivOfMultiple(1 + width, n);
    WindowBounds(parts, width, n - 1);
  }

  lemma {:induction false} LayoutWindows(rows: seq<seq<string>>, gaps: seq<string>, width: nat)
    requires |gaps| == |rows| + 1
    requires forall k :: 0 <= k < |rows| ==> |rows[k]| == width
    ensures |Layout(rows, gaps)| == 1 + (1 + width) * |rows|
    ensures WellFramed(Layout(rows, gaps), width) && RefCount(Layout(rows, gaps), width) == |rows|
    ensures forall i :: 0 <= i < |rows| ==> Window(Layout(rows, gaps), width, i) == rows[i]
    decreases |rows|
  {
    var parts := Layout(rows, gaps);
    if rows != [] {
      var n := |rows|;
      var front := Layout(rows[..n - 1], gaps[..n]);
      LayoutWindows(rows[..n - 1], gaps[..n], width);
      assert parts == front + rows[n - 1] + [gaps[n]];
      LastWindow(front, rows[n - 1], gaps[n], width, n);
      forall i | 0 <= i < n ensures Window(parts, width, i) == rows[i] {
        if i < n - 1 {
          assert rows[..n - 1][i] == rows[i];
          WindowOfPrefix(front, rows[n - 1] + [gaps[n]], width, i);
          assert front + (rows[n - 1] + [gaps[n]]) == parts;
        }
      }
    } else {
      DivOfMultiple(1 + width, 0);
    }
  }

  /** Framed output decodes window by window into the rows it was written
      from: NUL-joining the layout and splitting it again gives back the
      parts, the self-check passes, there is one record per row and record
      `i` reads exactly row `i`. */
  lemma {:induction false} FrameRoundTrip(rows: seq<seq<string>>, gaps: seq<string>, width: nat)
    requires |gaps| == |rows| + 1
    requires forall k :: 0 <= k < |rows| ==> |rows[k]| == width
    requires forall k :: 0 <= k < |gaps| ==> Nul !in gaps[k]
    requires forall k, c :: 0 <= k < |rows| && 0 <= c < width ==> Nul !in rows[k][c]
    ensures var parts := Split(Join(Layout(rows, gaps), Nul), Nul);
      && WellFramed(parts, width) && RefCount(parts, width) == |rows|
      && forall i :: 0 <= i < |rows| ==> Window(parts, width, i) == rows[i]
  {
    LayoutNoNul(rows, gaps, width);
    SplitJoin(Layout(rows, gaps), Nul);
    LayoutWindows(rows, gaps, width);
  }

  /** Output written from rows of one value per column decodes record by
      record from those rows. */
  lemma FramedOutputDecodes(rows: seq<seq<string>>, gaps: seq<string>, queries: seq<Query>)
    requires DistinctKeys(queries)
    requires |gaps| == |rows| + 1
    requires forall k :: 0 <= k < |rows| ==> |rows[k]| == |Placeholders(queries)|
    requires forall k :: 0 <= k < |gaps| ==> Nul !in gaps[k]
    requires forall k, c :: 0 <= k < |rows| && 0 <= c < |Placeholders(queries)| ==> Nul !in rows[k][c]
    ensures var parts := Split(Join(Layout(rows, gaps), Nul), Nul);
      && WellFramed(parts, |Placeholders(queries)|)
      && RefCount(parts, |Placeholders(queries)|) == |rows|
      && forall i :: 0 <= i < |rows| ==>
           Indexes(IndexMap(Placeholders(queries)), queries, |rows[i]|) &&
           Decoded(parts, queries, i) == DecodeRecord(rows[i], IndexMap(Placeholders(queries)), queries)
  {
    FrameRoundTrip(rows, gaps, |Placeholders(queries)|);
    PlaceholdersIndexed(queries);
  }

  lemma {:induction false} LayoutNoNul(rows: seq<seq<string>>, gaps: seq<string>, width: nat)
    requires |gaps| == |rows| + 1
    requires forall k :: 0 <= k < |rows| ==> |rows[k]| == width
    requires forall k :: 0 <= k < |gaps| ==> Nul !in gaps[k]
    requires forall k, c :: 0 <= k < |rows| && 0 <= c < width ==> Nul !in rows[k][c]
    ensures |Layout(rows, gaps)| >= 1
    ensures forall k :: 0 <= k < |Layout(rows, gaps)| ==> Nul !in Layout(rows, gaps)[k]
    decreases |rows|
  {
    if rows != [] {
      var n := |rows|;
      LayoutNoNul(rows[..n - 1], gaps[..n], width);
    }
  }

  // ---------------------------------------------------------------------
  // hasUncommittedChanges
  // ---------------------------------------------------------------------

  /** `lines.filter(Boolean)`. */
  function NonEmptyLines(lines: seq<string>): (r: seq<string>)
    ensures forall k :: 0 <= k < |r| ==> r[k] != "" && r[k] in lines
    ensures forall k :: 0 <= k < |lines| && lines[k] != "" ==> lines[k] in r
  {
    if lines == [] then []
    else if lines[0] == "" then NonEmptyLines(lines[1..])
    else [lines[0]] + NonEmptyLines(lines[1..])
  }

  predicate HasUncommittedChanges(status: string) {
    |NonEmptyLines(Split(status, '\n'))| > 0
  }

  lemma {:induction false} SplitHasNonEmptyPart(s: string, sep: char)
    ensures (exists k :: 0 <= k < |Split(s, sep)| && Split(s, sep)[k] != "") <==>
            (exists k :: 0 <= k < |s| && s[k] != sep)
  {
    if s != [] {
      var rest := Split(s[1..], sep);
      SplitHasNonEmptyPart(s[1..], sep);
      if s[0] == sep {
        var parts := [""] + rest;
        assert Split(s, sep) == parts;
        if exists k :: 0 <= k < |rest| && rest[k] != "" {
          var k :| 0 <= k < |rest| && rest[k] != "";
          assert parts[k + 1] != "";
        }
        if exists k :: 0 <= k < |parts| && parts[k] != "" {
          var k :| 0 <= k < |parts| && parts[k] != "";
          assert rest[k - 1] != "";
        }
        if exists k :: 0 <= k < |s[1..]| && s[1..][k] != sep {
          var k :| 0 <= k < |s[1..]| && s[1..][k] != sep;
          assert s[k + 1] != sep;
        }
        if exists k :: 0 <= k < |s| && s[k] != sep {
          var k :| 0 <= k < |s| && s[k] != sep;
          assert s[1..][k - 1] != sep;
        }
      } else {
        assert Split(s, sep)[0] != "";
      }
    }
  }

  /** The working tree is dirty exactly when the status output holds some
      character other than a newline. */
  lemma UncommittedIffContent(status: string)
    ensures HasUncommittedChanges(status) <==> exists k :: 0 <= k < |status| && status[k] != '\n'
  {
    var lines := Split(status, '\n');
    SplitHasNonEmptyPart(status, '\n');
    if exists k :: 0 <= k < |lines| && lines[k] != "" {
      var k :| 0 <= k < |lines| && lines[k] != "";
      assert lines[k] in NonEmptyLines(lines);
    }
    if |NonEmptyLines(lines)| > 0 {
      var r := NonEmptyLines(lines);
      assert r[0] in lines;
      var k :| 0 <= k < |lines| && lines[k] == r[0];
    }
  }

  // ---------------------------------------------------------------------
  // setup
  // ---------------------------------------------------------------------

  /** The git calls of a version's set-up and of its cleanup. */
  datatype WorktreeCall = AddWorktree(path: string, commit: string) | RemoveWorktree(path: string)

  datatype SetupPlan = SetupPlan(setup: seq<WorktreeCall>, cleanup: seq<WorktreeCall>)

  /** A version built from the working directory needs no worktree; any
      other gets a detached worktree of its commit at `src`, removed again
      by the cleanup. */
  function Setup(version: Version, src: string, cwd: string): SetupPlan
    requires version.data.Some?
  {
    if src == cwd then SetupPlan([], [])
    else SetupPlan([AddWorktree(src, version.data.value.hash)], [RemoveWorktree(src)])
  }

  /** The set-up does nothing, and its cleanup nothing, exactly when the
      source is the working directory; otherwise the cleanup removes exactly
      the worktree the set-up added, checked out at the version's commit,
      and neither touches the working directory. */
  lemma SetupPairs(version: Version, src: string, cwd: string)
    requires version.data.Some?
    ensures var plan := Setup(version, src, cwd);
      && (plan.setup == [] <==> src == cwd)
      && (plan.cleanup == [] <==> src == cwd)
      && (forall c :: c in plan.setup ==> c == AddWorktree(src, version.data.value.hash) && c.path != cwd)
      && (forall c :: c in plan.cleanup ==>
            c.RemoveWorktree? && c.path != cwd && exists a :: a in plan.setup && a.path == c.path)
  {
  }
}
