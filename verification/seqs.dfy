/** Sequence helpers shared by the rules: filtering, flattening, first occurrences. */
module Seqs {
  import opened Wrappers

  /** The elements of `s` satisfying `p`, in order (`Array.prototype.filter`). */
  function Filter<T(!new)>(s: seq<T>, p: T -> bool): (r: seq<T>)
    ensures |r| <= |s|
    ensures forall x :: x in r <==> x in s && p(x)
  {
    if s == [] then [] else (if p(s[0]) then [s[0]] else []) + Filter(s[1..], p)
  }

  /** The concatenation of the pieces, in order. */
  function Flatten<T(!new)>(ss: seq<seq<T>>): (r: seq<T>)
    ensures forall x :: x in r <==> exists i :: 0 <= i < |ss| && x in ss[i]
  {
    if ss == [] then []
    else
      assert forall i :: 1 <= i < |ss| ==> ss[i] == ss[1..][i - 1];
      ss[0] + Flatten(ss[1..])
  }

  /**
   * For each `x` of `xs` in turn, the elements of `ys` it relates to, in
   * order: two nested loops that collect the inner element.
   */
  function Related<T(!new)>(xs: seq<T>, ys: seq<T>, rel: (T, T) -> bool): (r: seq<T>)
    ensures forall y :: y in r <==> y in ys && exists x :: x in xs && rel(x, y)
  {
    if xs == [] then []
    else
      var head := Filter(ys, y => rel(xs[0], y));
      var rest := Related(xs[1..], ys, rel);
      assert forall x :: x in xs ==> x == xs[0] || x in xs[1..];
      head + rest
  }

  /** The elements of `s` not in `seen`, each at its first occurrence (a JS Map's key order). */
  function Distinct<T(==,!new)>(s: seq<T>, seen: set<T>): (r: seq<T>)
    ensures forall x :: x in r <==> x in s && x !in seen
    ensures forall i, j :: 0 <= i < j < |r| ==> r[i] != r[j]
  {
    if s == [] then []
    else if s[0] in seen then Distinct(s[1..], seen)
    else
      var rest := Distinct(s[1..], seen + {s[0]});
      assert forall j :: 0 <= j < |rest| ==> rest[j] != s[0] by {
        forall j | 0 <= j < |rest| ensures rest[j] != s[0] {
          assert rest[j] in rest;
        }
      }
      [s[0]] + rest
  }

  /** The first position from `p` whose entry is present: the leftmost success of a search tried at every position. */
  function FirstSome<T>(ms: seq<Option<T>>, p: nat): (r: Option<nat>)
    ensures r.Some? ==> p <= r.value < |ms| && ms[r.value].Some?
    ensures r.Some? ==> forall m :: p <= m < r.value ==> ms[m].None?
    ensures r.None? ==> forall m :: p <= m < |ms| ==> ms[m].None?
    decreases |ms| - p
  {
    if p >= |ms| then None
    else if ms[p].Some? then Some(p)
    else FirstSome(ms, p + 1)
  }

  /** The first position from `p` whose flag is set. */
  function FirstTrue(bs: seq<bool>, p: nat): (r: Option<nat>)
    ensures r.Some? ==> p <= r.value < |bs| && bs[r.value]
    ensures r.Some? ==> forall m :: p <= m < r.value ==> !bs[m]
    ensures r.None? ==> forall m :: p <= m < |bs| ==> !bs[m]
    decreases |bs| - p
  {
    if p >= |bs| then None
    else if bs[p] then Some(p)
    else FirstTrue(bs, p + 1)
  }

  /** Appending after a non-empty sequence keeps its head and appends to its tail. */
  lemma TailAppend<T>(s: seq<T>, a: T)
    requires s != []
    ensures (s + [a])[0] == s[0] && (s + [a])[1..] == s[1..] + [a]
  {
  }
}
