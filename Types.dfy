/** Vocabulary shared by the whole model: optional values, results, the
    `Version` record every provider produces, and the sequence operations
    the source gets from the JavaScript runtime (`Set` de-duplication,
    `String.prototype.split`, `Array.prototype.reverse`, `find`). */
module Types {

  datatype Option<+T> = None | Some(value: T) {
    /** JavaScript's `x ?? fallback`. */
    function GetOr(fallback: T): T {
      match this
      case Some(v) => v
      case None => fallback
    }
  }

  datatype Result<+T, +E> = Ok(value: T) | Err(error: E)

  /** What the git providers attach to a version: the three default fields
      of a ref and the caller's fields, where an empty value is `None`
      (JavaScript `null`). */
  datatype RefData = RefData(fullName: string, name: string, hash: string, custom: map<string, Option<string>>)

  /** A version. `isLatest == false` stands for the flag being absent (the
      schema admits only `true`); `date` is a timestamp in milliseconds. */
  datatype Version = Version(
    base: string,
    name: string,
    src: Option<string>,
    date: Option<int>,
    isLatest: bool,
    data: Option<RefData>)

  /** The base of the site root. */
  const Root: string := "/"

  /** A base as the schema accepts it: it starts and ends with `/`. */
  predicate WellFormedBase(b: string) {
    |b| >= 1 && b[0] == '/' && b[|b| - 1] == '/'
  }

  function Bases(vs: seq<Version>): (r: seq<string>)
    ensures |r| == |vs|
    ensures forall k :: 0 <= k < |vs| ==> r[k] == vs[k].base
  {
    seq(|vs|, k requires 0 <= k < |vs| => vs[k].base)
  }

  predicate HasBase(vs: seq<Version>, b: string) {
    exists k :: 0 <= k < |vs| && vs[k].base == b
  }

  predicate Distinct<T(==)>(s: seq<T>) {
    forall i, j :: 0 <= i < j < |s| ==> s[i] != s[j]
  }

  /** `[...new Set(s)]`: every element once, at the place of its first
      occurrence. */
  function Dedup<T(==)>(s: seq<T>): (r: seq<T>)
    ensures Distinct(r)
    ensures forall k :: 0 <= k < |r| ==> r[k] in s
    ensures forall k :: 0 <= k < |s| ==> s[k] in r
    ensures |r| <= |s|
    decreases |s|
  {
    if s == [] then []
    else
      var prefix := Dedup(s[..|s| - 1]);
      if s[|s| - 1] in prefix then prefix else prefix + [s[|s| - 1]]
  }

  /** A prefix one element longer. */
  lemma PrefixStep<T>(s: seq<T>, k: nat)
    requires k < |s|
    ensures s[..k + 1] == s[..k] + [s[k]]
  {
  }

  lemma PrefixWhole<T>(s: seq<T>)
    ensures s[..|s|] == s
  {
  }

  /** De-duplicating a sequence without repeats changes nothing. */
  lemma {:induction false} DedupOfDistinct<T>(s: seq<T>)
    requires Distinct(s)
    ensures Dedup(s) == s
    decreases |s|
  {
    if s != [] {
      DedupOfDistinct(s[..|s| - 1]);
    }
  }

  /** Later elements never move earlier ones: the de-duplication of a prefix
      is a prefix of the de-duplication of the whole, so elements keep the
      order of their first occurrences. */
  lemma {:induction false} DedupPrefix<T>(s: seq<T>, t: seq<T>)
    ensures |Dedup(s)| <= |Dedup(s + t)|
    ensures Dedup(s + t)[..|Dedup(s)|] == Dedup(s)
    decreases |t|
  {
    if t == [] {
      assert s + t == s;
    } else {
      var t' := t[..|t| - 1];
      assert (s + t)[..|s + t| - 1] == s + t';
      DedupPrefix(s, t');
    }
  }

  /** When the front part has no repeats it survives de-duplication whole. */
  lemma DedupKeepsDistinctFront<T>(s: seq<T>, t: seq<T>)
    requires Distinct(s)
    ensures |s| <= |Dedup(s + t)| && Dedup(s + t)[..|s|] == s
  {
    DedupOfDistinct(s);
    DedupPrefix(s, t);
  }

  /** `Array.prototype.reverse` on a copy. */
  function Reversed<T>(s: seq<T>): (r: seq<T>)
    ensures |r| == |s|
    ensures forall k :: 0 <= k < |s| ==> r[k] == s[|s| - 1 - k]
  {
    if s == [] then [] else Reversed(s[1..]) + [s[0]]
  }

  /** Reversing keeps the elements and keeps them distinct. */
  lemma ReversedMembers<T>(s: seq<T>)
    ensures forall x :: x in Reversed(s) <==> x in s
    ensures Distinct(s) ==> Distinct(Reversed(s))
  {
    var r := Reversed(s);
    forall x | x in s ensures x in r {
      var k :| 0 <= k < |s| && s[k] == x;
      assert r[|s| - 1 - k] == x;
    }
    if Distinct(s) {
      forall i, j | 0 <= i < j < |r| ensures r[i] != r[j] {
        assert r[i] == s[|s| - 1 - i] && r[j] == s[|s| - 1 - j];
      }
    }
  }

  /** `Array.prototype.findIndex`: the first position whose element
      satisfies `p`. */
  function FirstIndex<T>(s: seq<T>, p: T -> bool): (r: Option<nat>)
    ensures r.Some? ==> r.value < |s| && p(s[r.value]) && forall j :: 0 <= j < r.value ==> !p(s[j])
    ensures r.None? ==> forall j :: 0 <= j < |s| ==> !p(s[j])
  {
    if s == [] then None
    else if p(s[0]) then Some(0)
    else
      match FirstIndex(s[1..], p)
      case Some(k) => Some(k + 1)
      case None => None
  }

  /** `s.split(sep)` for a one-character separator: never empty, and no
      part contains the separator. */
  function Split(s: string, sep: char): (parts: seq<string>)
    ensures |parts| >= 1
    ensures forall k :: 0 <= k < |parts| ==> sep !in parts[k]
  {
    if s == [] then [""]
    else
      var rest := Split(s[1..], sep);
      if s[0] == sep then [""] + rest else [[s[0]] + rest[0]] + rest[1..]
  }

  /** There is one more part than there are separators. */
  lemma {:induction false} SplitCount(s: string, sep: char)
    ensures |Split(s, sep)| == multiset(s)[sep] + 1
  {
    if s != [] {
      assert s == [s[0]] + s[1..];
      SplitCount(s[1..], sep);
    }
  }

  /** `parts.join(sep)`. */
  function Join(parts: seq<string>, sep: char): string
    requires |parts| >= 1
  {
    if |parts| == 1 then parts[0] else parts[0] + [sep] + Join(parts[1..], sep)
  }

  lemma {:induction false} SplitAfterPlainPrefix(p: string, t: string, sep: char)
    requires sep !in p
    ensures Split(p + t, sep) == [p + Split(t, sep)[0]] + Split(t, sep)[1..]
    decreases |p|
  {
    var tail := Split(t, sep);
    if p != [] {
      var pt := p + t;
      assert pt[0] == p[0] && pt[1..] == p[1..] + t;
      SplitAfterPlainPrefix(p[1..], t, sep);
      var rest := Split(pt[1..], sep);
      assert rest == [p[1..] + tail[0]] + tail[1..];
      assert Split(pt, sep) == [[p[0]] + rest[0]] + rest[1..];
      assert [p[0]] + (p[1..] + tail[0]) == p + tail[0];
    } else {
      assert p + t == t;
      assert p + tail[0] == tail[0];
      assert tail == [tail[0]] + tail[1..];
    }
  }

  /** Splitting undoes joining when no part contains the separator. */
  lemma {:induction false} SplitJoin(parts: seq<string>, sep: char)
    requires |parts| >= 1
    requires forall k :: 0 <= k < |parts| ==> sep !in parts[k]
    ensures Split(Join(parts, sep), sep) == parts
    decreases |parts|
  {
    if |parts| == 1 {
      SplitAfterPlainPrefix(parts[0], [], sep);
      assert parts[0] + [] == parts[0];
      assert Split([], sep) == [""];
      assert parts[0] + "" == parts[0];
    } else {
      var rest := Join(parts[1..], sep);
      SplitJoin(parts[1..], sep);
      var sepRest := [sep] + rest;
      assert sepRest[1..] == rest;
      assert Split(sepRest, sep) == [""] + parts[1..];
      assert parts[0] + [sep] + rest == parts[0] + sepRest;
      SplitAfterPlainPrefix(parts[0], sepRest, sep);
      assert parts[0] + "" == parts[0];
      assert parts == [parts[0]] + parts[1..];
    }
  }
}
