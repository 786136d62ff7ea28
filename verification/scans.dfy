/**
 * The small regexes of the execute rules, matched character by character:
 * `a\s*b\s*c` phrases found anywhere (`sort\s*=\s*nearest`, `limit\s*=`),
 * the `^execute\s+run\s+` guard, the `\s+run\s+(.+)$` tail capture, and
 * the keyword-then-selector probes `as @…`, `if|unless entity @…`, `at @…`.
 */
module Scans {
  import opened Wrappers
  import opened Text
  import opened Tokens
  import Seqs

  /** The words `parts`, separated by optional whitespace, start at `i`. */
  predicate PhraseAt(s: string, i: nat, parts: seq<string>)
    requires i <= |s|
    decreases |parts|
  {
    parts == [] ||
    (i + |parts[0]| <= |s| && s[i..i + |parts[0]|] == parts[0] &&
     PhraseAt(s, SpaceEnd(s, i + |parts[0]|), parts[1..]))
  }

  /** The phrase starts somewhere at or after `i` (the regex `test`). */
  predicate HasPhraseFrom(s: string, i: nat, parts: seq<string>)
    requires i <= |s|
    decreases |s| - i
  {
    PhraseAt(s, i, parts) || (i < |s| && HasPhraseFrom(s, i + 1, parts))
  }

  predicate HasPhrase(s: string, parts: seq<string>) {
    HasPhraseFrom(s, 0, parts)
  }

  /** The search succeeds exactly when the phrase starts at some position. */
  lemma {:induction false} HasPhraseIff(s: string, i: nat, parts: seq<string>)
    requires i <= |s|
    ensures HasPhraseFrom(s, i, parts) <==> exists k :: i <= k <= |s| && PhraseAt(s, k, parts)
    decreases |s| - i
  {
    if PhraseAt(s, i, parts) {
      assert HasPhraseFrom(s, i, parts);
      assert exists k :: i <= k <= |s| && PhraseAt(s, k, parts);
    } else if i < |s| {
      HasPhraseIff(s, i + 1, parts);
      if exists k :: i <= k <= |s| && PhraseAt(s, k, parts) {
        var k :| i <= k <= |s| && PhraseAt(s, k, parts);
        assert i + 1 <= k <= |s| && PhraseAt(s, k, parts);
      }
    }
  }

  /** `/sort\s*=\s*nearest/.test(s)`. */
  predicate SortsNearest(s: string) {
    HasPhrase(s, ["sort", "=", "nearest"])
  }

  /** `/limit\s*=/.test(s)`. */
  predicate HasLimit(s: string) {
    HasPhrase(s, ["limit", "="])
  }

  /** `@p` / `@n`, bare or with arguments: selectors that pick the nearest entity. */
  predicate NearestSelector(s: string) {
    s == "@p" || s == "@n" || StartsWith(s, "@p[") || StartsWith(s, "@n[")
  }

  /** `run` followed by whitespace starts at `a`. */
  predicate RunWordAt(s: string, a: nat) {
    a + 3 < |s| && s[a..a + 3] == "run" && IsSpace(s[a + 3])
  }

  /** `/^execute\s+run\s+/.test(s)`. */
  predicate ExecuteRunStart(s: string) {
    8 <= |s| && s[..7] == "execute" && IsSpace(s[7]) && RunWordAt(s, SpaceEnd(s, 7))
  }

  predicate NoTerminatorFrom(s: string, i: nat) {
    forall k :: i <= k < |s| ==> !IsLineTerminator(s[k])
  }

  /**
   * The capture of `\s+run\s+(.+)$` when the match starts at `p`: the
   * greedy `\s+` after `run` leaves the capture starting at the next
   * non-space, or gives back the last space when only spaces follow; the
   * capture runs to the end and so may hold no line terminator.
   */
  function RunTailAt(s: string, p: nat): (r: Option<string>)
    requires p <= |s|
    ensures r.Some? ==> r.value != [] && EndsWith(s, r.value) && NoTerminatorFrom(r.value, 0)
  {
    if p < |s| && IsSpace(s[p]) && RunWordAt(s, SpaceEnd(s, p)) then
      var a := SpaceEnd(s, p);
      var w := SpaceEnd(s, a + 3);
      if w < |s| && NoTerminatorFrom(s, w) then
        assert forall k :: 0 <= k < |s[w..]| ==> s[w..][k] == s[w + k];
        Some(s[w..])
      else if w == |s| && a + 4 <= |s| - 1 && !IsLineTerminator(s[|s| - 1]) then Some(s[|s| - 1..])
      else None
    else None
  }

  /** The leftmost match from `p` on. */
  function RunTailFrom(s: string, p: nat): (r: Option<string>)
    requires p <= |s|
    ensures r.Some? ==> exists q :: p <= q <= |s| && RunTailAt(s, q) == r
    ensures r.None? ==> forall q :: p <= q <= |s| ==> RunTailAt(s, q).None?
    decreases |s| - p
  {
    var here := RunTailAt(s, p);
    if here.Some? || p == |s| then here else RunTailFrom(s, p + 1)
  }

  /** `s.match(/\s+run\s+(.+)$/)?.[1]`. */
  function RunTail(s: string): (r: Option<string>)
    ensures r.Some? ==> r.value != [] && EndsWith(s, r.value)
  {
    RunTailFrom(s, 0)
  }

  // ------------------------------------------------- keyword probes

  /** The letters of `@[aepnrs]`. */
  const AnyLetter: set<char> := {'a', 'e', 'p', 'n', 'r', 's'}

  /** `\b` then the word `w` at `p` (for a `w` starting with a `\w` character). */
  predicate WordAt(s: string, p: nat, w: string) {
    p + |w| <= |s| && s[p..p + |w|] == w && WordBoundary(s, p)
  }

  /**
   * `\s+` from `q` then a selector. The greedy spaces are all taken: the
   * selector's `@` is no space, so backing off cannot help.
   */
  function SpacedSelector(s: string, q: nat): (r: Option<SelectorMatch>)
    requires q <= |s|
    ensures r.Some? ==> q < r.value.start && IsMatch(s, r.value, AnyLetter)
    ensures r.Some? ==> forall k :: q <= k < r.value.start ==> IsSpace(s[k])
  {
    var e := SpaceEnd(s, q);
    if e > q then SelectorAt(s, e, AnyLetter) else None
  }

  /** Which probe: `as @…`, `if|unless entity @…` or `at @…`. */
  datatype Probe = AsProbe | IfEntityProbe | AtProbe

  /** A probe's match: where it starts, whether it read `unless`, and its selector. */
  datatype Hit = Hit(at: nat, negative: bool, sel: SelectorMatch)

  /** `(?<!positioned\s)`: `positioned` and one whitespace character end at `p`. */
  predicate AfterPositioned(s: string, p: nat)
    requires p <= |s|
  {
    p >= 11 && s[p - 11..p - 1] == "positioned" && IsSpace(s[p - 1])
  }

  /** `entity` after the spaces from `q`, then spaces and a selector. */
  function EntityAfter(s: string, p: nat, q: nat, negative: bool): (r: Option<Hit>)
    requires q <= |s|
    ensures r.Some? ==> r.value.at == p && r.value.negative == negative && q < r.value.sel.start
  {
    var e := SpaceEnd(s, q);
    if e > q && e + 6 <= |s| && s[e..e + 6] == "entity" then
      var m := SpacedSelector(s, e + 6);
      if m.Some? then Some(Hit(p, negative, m.value)) else None
    else None
  }

  /**
   * The probe matched at `p`:
   * `(?<!positioned\s)\bas\s+(@[aepnrs])(\[[^\]]*\])?`,
   * `\b(if|unless)\s+entity\s+(@[aepnrs])(\[[^\]]*\])?` or
   * `\bat\s+(@[aepnrs](?:\[[^\]]*\])?)`.
   * Only `unless` reads negative; `if` and `unless` cannot both start at `p`.
   */
  function ProbeAt(s: string, p: nat, probe: Probe): (r: Option<Hit>)
    requires p <= |s|
    ensures r.Some? ==> r.value.at == p && p < r.value.sel.start && IsMatch(s, r.value.sel, AnyLetter)
    ensures r.Some? && r.value.negative ==> probe == IfEntityProbe
  {
    match probe
    case AsProbe =>
      if !AfterPositioned(s, p) && WordAt(s, p, "as") then
        var m := SpacedSelector(s, p + 2);
        if m.Some? then Some(Hit(p, false, m.value)) else None
      else None
    case AtProbe =>
      if WordAt(s, p, "at") then
        var m := SpacedSelector(s, p + 2);
        if m.Some? then Some(Hit(p, false, m.value)) else None
      else None
    case IfEntityProbe =>
      if WordAt(s, p, "if") then EntityAfter(s, p, p + 2, false)
      else if WordAt(s, p, "unless") then EntityAfter(s, p, p + 6, true)
      else None
  }

  /** The probe tried at every position of `s`. */
  function Probes(s: string, probe: Probe): (r: seq<Option<Hit>>)
    ensures |r| == |s| + 1 && forall q :: 0 <= q <= |s| ==> r[q] == ProbeAt(s, q, probe)
  {
    seq(|s| + 1, q requires 0 <= q <= |s| => ProbeAt(s, q, probe))
  }

  /** The leftmost match at or after `p` (the non-global `match`). */
  function FirstFrom(s: string, p: nat, probe: Probe): (r: Option<Hit>)
    requires p <= |s|
    ensures r.Some? ==> p <= r.value.at < r.value.sel.start && IsMatch(s, r.value.sel, AnyLetter)
    ensures r.Some? ==> ProbeAt(s, r.value.at, probe) == r
    ensures r.Some? ==> forall q :: p <= q < r.value.at ==> ProbeAt(s, q, probe).None?
    ensures r.None? ==> forall q :: p <= q <= |s| ==> ProbeAt(s, q, probe).None?
  {
    var ms := Probes(s, probe);
    match Seqs.FirstSome(ms, p)
    case None => None
    case Some(q) => ms[q]
  }

  /** The probe matches at no position in `[a, b)` of `s`. */
  predicate NoHit(s: string, a: nat, b: nat, probe: Probe) {
    forall q :: a <= q < b && q <= |s| ==> ProbeAt(s, q, probe).None?
  }

  /**
   * No match starts before the first of `r` (from `p`), between the end of
   * one and the start of the next, or after the end of the last.
   */
  predicate NoneMissed(s: string, p: nat, r: seq<Hit>, probe: Probe) {
    && (r == [] ==> NoHit(s, p, |s| + 1, probe))
    && (r != [] ==> NoHit(s, p, r[0].at, probe) && NoHit(s, r[|r| - 1].sel.end, |s| + 1, probe))
    && (forall j :: 0 <= j < |r| - 1 ==> NoHit(s, r[j].sel.end, r[j + 1].at, probe))
  }

  /**
   * Every match from `p` on (the global regex's `exec` loop): the leftmost
   * one, then those from its end on; in order and without overlapping,
   * and with none missed.
   */
  function AllFrom(s: string, p: nat, probe: Probe): (r: seq<Hit>)
    requires p <= |s|
    ensures forall h :: h in r ==> p <= h.at <= |s| && ProbeAt(s, h.at, probe) == Some(h)
    ensures forall j :: 0 <= j < |r| - 1 ==> r[j].sel.end <= r[j + 1].at
    ensures NoneMissed(s, p, r, probe)
    decreases |s| - p
  {
    var first := FirstFrom(s, p, probe);
    if first.None? then []
    else
      var h := first.value;
      var rest := AllFrom(s, h.sel.end, probe);
      assert rest != [] ==> rest[0] in rest;
      FirstThenRest(s, p, probe, h, rest);
      [h] + rest
  }

  /** The leftmost match followed by the matches from its end on misses none. */
  lemma FirstThenRest(s: string, p: nat, probe: Probe, h: Hit, rest: seq<Hit>)
    requires p <= |s| && FirstFrom(s, p, probe) == Some(h) && h.sel.end <= |s|
    requires forall g :: g in rest ==> h.sel.end <= g.at
    requires forall j :: 0 <= j < |rest| - 1 ==> rest[j].sel.end <= rest[j + 1].at
    requires NoneMissed(s, h.sel.end, rest, probe)
    ensures NoneMissed(s, p, [h] + rest, probe)
    ensures forall j :: 0 <= j < |[h] + rest| - 1 ==> ([h] + rest)[j].sel.end <= ([h] + rest)[j + 1].at
  {
    var r := [h] + rest;
    forall j | 0 <= j < |r| - 1
      ensures NoHit(s, r[j].sel.end, r[j + 1].at, probe) && r[j].sel.end <= r[j + 1].at
    {
      if j == 0 {
        assert rest[0] in rest;
      } else {
        assert r[j] == rest[j - 1] && r[j + 1] == rest[j];
      }
    }
  }

  /** `/(?<!\w)as\s+@/` matched at `p`. */
  predicate AsAt(s: string, p: nat)
    requires p <= |s|
  {
    WordAt(s, p, "as") && SpaceEnd(s, p + 2) > p + 2 && SpaceEnd(s, p + 2) < |s| && s[SpaceEnd(s, p + 2)] == '@'
  }

  /** `/(?<!\w)as\s+@/.test(s)`. */
  predicate HasAs(s: string) {
    exists p :: 0 <= p <= |s| && AsAt(s, p)
  }
}
