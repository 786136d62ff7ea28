/**
 * The abstract score values tracked by the condition analyses, the range
 * syntax of `matches`, and the judgments that decide a condition from a
 * tracked value.
 */
module ScoreLattice {
  import opened Wrappers
  import opened Text
  import opened Patterns
  import FunctionIndex

  /** A tracked score: a known value, not known, or reset (the score does not exist). */
  datatype Kind = Known(value: int) | Unknown | Reset

  /** One end of a range: absent, a number, or the NaN that `parseInt` gives for a non-number. */
  datatype Bound = Open | At(n: int) | NotANumber

  datatype ScoreRange = ScoreRange(min: Bound, max: Bound)

  /** The minimum and maximum of a 32-bit score, used where a range end is absent. */
  const MinScore := -2147483648
  const MaxScore := 2147483647

  function ParseBound(s: string): (b: Bound)
    ensures b != Open
  {
    match ParseInt(s)
    case None => NotANumber
    case Some(v) => At(v)
  }

  /**
   * `a..b`, `a..`, `..b` or a single value; an empty side is absent, a side
   * that is not a number is NaN.
   */
  function ParseRange(rangeStr: string): (r: ScoreRange)
    ensures !Contains(rangeStr, "..") ==> r.min == r.max == ParseBound(rangeStr)
  {
    if Contains(rangeStr, "..") then
      var parts := SplitOn(rangeStr, "..");
      ScoreRange(if parts[0] == "" then Open else ParseBound(parts[0]),
                 if parts[1] == "" then Open else ParseBound(parts[1]))
    else
      var v := ParseBound(rangeStr);
      ScoreRange(v, v)
  }

  function Lenient(b: Bound): Bound {
    if b.NotANumber? then Open else b
  }

  /** The always-pass rule's parser: a side that is not a number is absent instead of NaN. */
  function ParseRangeLenient(rangeStr: string): (r: ScoreRange)
    ensures !r.min.NotANumber? && !r.max.NotANumber?
  {
    var r := ParseRange(rangeStr);
    ScoreRange(Lenient(r.min), Lenient(r.max))
  }

  predicate NoNaN(r: ScoreRange) {
    !r.min.NotANumber? && !r.max.NotANumber?
  }

  /** `matchesRange`: a comparison with NaN is false, so a NaN side rejects nothing. */
  predicate MatchesRange(v: int, r: ScoreRange) {
    !(r.min.At? && v < r.min.n) && !(r.max.At? && v > r.max.n)
  }

  /**
   * The two parsers disagree only on NaN ends, which never reject a value:
   * they decide every condition alike.
   */
  lemma LenientMatchesAlike(rangeStr: string, v: int)
    ensures MatchesRange(v, ParseRangeLenient(rangeStr)) <==> MatchesRange(v, ParseRange(rangeStr))
  {
  }

  /** `isConditionUnreachable`: the condition can never pass in the tracked state. */
  predicate IsUnreachable(k: Kind, c: CondType, r: ScoreRange) {
    match k
    case Unknown => false
    case Reset => c == If
    case Known(v) => if c == If then !MatchesRange(v, r) else MatchesRange(v, r)
  }

  /** `isConditionAlwaysTrue`: a known value always passes the condition. */
  predicate IsAlwaysTrue(k: Kind, c: CondType, r: ScoreRange) {
    k.Known? && (if c == If then MatchesRange(k.value, r) else !MatchesRange(k.value, r))
  }

  /** The always-pass rule's judgment, which also counts `unless` on a reset score. */
  predicate AlwaysPasses(k: Kind, c: CondType, r: ScoreRange) {
    IsAlwaysTrue(k, c, r) || (k.Reset? && c == Unless)
  }

  /** A condition is never both impossible and certain. */
  lemma JudgmentsExclusive(k: Kind, c: CondType, r: ScoreRange)
    ensures !(IsUnreachable(k, c, r) && AlwaysPasses(k, c, r))
    ensures IsAlwaysTrue(k, c, r) ==> AlwaysPasses(k, c, r)
  {
  }

  /** Every tracked state other than Unknown decides every condition one way or the other. */
  lemma DecidedIffTracked(k: Kind, c: CondType, r: ScoreRange)
    ensures IsUnreachable(k, c, r) || AlwaysPasses(k, c, r) <==> !k.Unknown?
    ensures IsUnreachable(k, c, r) || IsAlwaysTrue(k, c, r) <==> k.Known? || (k.Reset? && c == If)
  {
  }

  /** `if` and `unless` on the same range are decided oppositely. */
  lemma IfUnlessOpposite(k: Kind, r: ScoreRange)
    requires !k.Unknown?
    ensures IsUnreachable(k, If, r) <==> AlwaysPasses(k, Unless, r)
  {
  }

  /** The low and high end of a range as compared: absent ends default to the 32-bit limits, NaN is None. */
  function Lo(b: Bound): Option<int> {
    match b
    case Open => Some(MinScore)
    case At(n) => Some(n)
    case NotANumber => None
  }

  function Hi(b: Bound): Option<int> {
    match b
    case Open => Some(MaxScore)
    case At(n) => Some(n)
    case NotANumber => None
  }

  /** JavaScript `<=` on numbers that may be NaN. */
  predicate Le(a: Option<int>, b: Option<int>) {
    a.Some? && b.Some? && a.value <= b.value
  }

  /** `rangesOverlap`. */
  predicate RangesOverlap(r1: ScoreRange, r2: ScoreRange) {
    Le(Lo(r1.min), Hi(r2.max)) && Le(Lo(r2.min), Hi(r1.max))
  }

  /** `rangesEqual`: NaN is not equal to itself. */
  predicate RangesEqual(r1: ScoreRange, r2: ScoreRange) {
    r1.min == r2.min && r1.max == r2.max && !r1.min.NotANumber? && !r1.max.NotANumber?
  }

  /** The `unless` range `u` contains the `if` range `i`. */
  predicate RangeContains(u: ScoreRange, i: ScoreRange) {
    Le(Lo(u.min), Lo(i.min)) && Le(Hi(i.max), Hi(u.max))
  }

  /** The values a range admits once its absent ends are the 32-bit limits. */
  predicate Admits(v: int, r: ScoreRange)
    requires NoNaN(r)
  {
    Lo(r.min).value <= v <= Hi(r.max).value
  }

  /** For a 32-bit score, admitting a value is matching the range. */
  lemma AdmitsIsMatching(v: int, r: ScoreRange)
    requires NoNaN(r) && MinScore <= v <= MaxScore
    ensures Admits(v, r) <==> MatchesRange(v, r)
  {
  }

  lemma OverlapSymmetric(r1: ScoreRange, r2: ScoreRange)
    ensures RangesOverlap(r1, r2) <==> RangesOverlap(r2, r1)
  {
  }

  /** A value admitted by both ranges makes them overlap; for non-empty ranges the converse holds. */
  lemma OverlapIffCommonValue(r1: ScoreRange, r2: ScoreRange)
    requires NoNaN(r1) && NoNaN(r2)
    ensures (exists v :: Admits(v, r1) && Admits(v, r2)) ==> RangesOverlap(r1, r2)
    ensures RangesOverlap(r1, r2) && Le(Lo(r1.min), Hi(r1.max)) && Le(Lo(r2.min), Hi(r2.max)) ==>
              exists v :: Admits(v, r1) && Admits(v, r2)
  {
    if RangesOverlap(r1, r2) && Le(Lo(r1.min), Hi(r1.max)) && Le(Lo(r2.min), Hi(r2.max)) {
      var lo1, lo2 := Lo(r1.min).value, Lo(r2.min).value;
      var v := if lo1 <= lo2 then lo2 else lo1;
      assert Admits(v, r1) && Admits(v, r2);
    }
  }

  /** A NaN end never overlaps anything. */
  lemma NaNNeverOverlaps(r1: ScoreRange, r2: ScoreRange)
    requires !NoNaN(r1)
    ensures !RangesOverlap(r1, r2) && !RangesOverlap(r2, r1)
  {
  }

  /** An `unless` range containing the `if` range admits every value the `if` admits. */
  lemma ContainmentLeavesNoValue(u: ScoreRange, i: ScoreRange, v: int)
    requires NoNaN(u) && NoNaN(i) && RangeContains(u, i) && Admits(v, i)
    ensures Admits(v, u)
  {
  }

  /** Equal ranges contain one another, so an equal `if` is flagged as well as the `unless`. */
  lemma EqualRangesContain(r1: ScoreRange, r2: ScoreRange)
    requires RangesEqual(r1, r2)
    ensures RangeContains(r1, r2) && RangeContains(r2, r1)
  {
  }

  // ----------------------------------------------- range text round trip

  function DigitChar(d: nat): (c: char)
    requires d < 10
    ensures IsDigit(c) && DigitValue(c) == d
  {
    ('0' as int + d) as char
  }

  /** The decimal digits of `n`, without leading zeros. */
  function DecimalString(n: nat): (s: string)
    ensures |s| >= 1 && IsDigit(s[0])
    ensures forall c :: c in s ==> IsDigit(c)
    ensures DecimalValue(s) == n
  {
    if n < 10 then [DigitChar(n)]
    else
      var s := DecimalString(n / 10) + [DigitChar(n % 10)];
      assert s[..|s| - 1] == DecimalString(n / 10);
      s
  }

  function ShowInt(v: int): string {
    if v < 0 then "-" + DecimalString(-v) else DecimalString(v)
  }

  function ShowBound(b: Bound): string
    requires !b.NotANumber?
  {
    if b.Open? then "" else ShowInt(b.n)
  }

  /** A range written as `min..max`, an absent end left empty. */
  function ShowRange(r: ScoreRange): string
    requires NoNaN(r)
  {
    ShowBound(r.min) + ".." + ShowBound(r.max)
  }

  lemma {:induction false} DigitsLead(s: string)
    requires forall c :: c in s ==> IsDigit(c)
    ensures LeadingDigits(s) == s
  {
    if s != [] {
      DigitsLead(s[1..]);
    }
  }

  lemma NoSpaceNoTrim(s: string)
    requires s != [] && !IsSpace(s[0])
    ensures TrimStart(s) == s
  {
    assert SpaceEnd(s, 0) == 0;
  }

  lemma ParseUnsigned(d: string)
    requires d != [] && IsDigit(d[0]) && LeadingDigits(d) == d
    ensures ParseInt(d) == Some(DecimalValue(LeadingDigits(d)) as int)
  {
    NoSpaceNoTrim(d);
    assert SignFree(d) == d;
  }

  lemma ParseSigned(d: string)
    requires d != [] && IsDigit(d[0]) && LeadingDigits(d) == d
    ensures ParseInt("-" + d) == Some(-(DecimalValue(LeadingDigits(d)) as int))
  {
    var s := "-" + d;
    NoSpaceNoTrim(s);
    assert s[1..] == d;
    assert SignFree(s) == d;
  }

  /** `parseInt` reads the written form of every integer back. */
  lemma ParseShowInt(v: int)
    ensures ParseInt(ShowInt(v)) == Some(v)
  {
    var d := DecimalString(if v < 0 then -v else v);
    DigitsLead(d);
    if v < 0 {
      ParseSigned(d);
    } else {
      ParseUnsigned(d);
    }
  }

  lemma NoDotsSplit(a: string, b: string)
    requires '.' !in a && '.' !in b
    ensures SplitOn(a + ".." + b, "..") == [a, b]
  {
    var s := a + ".." + b;
    var k := IndexOf(s, "..");
    assert OccursAt(s, "..", |a|);
    assert k != -1 && k <= |a|;
    forall j | 0 <= j < |a| ensures !OccursAt(s, "..", j) {
      assert s[j] == a[j] && a[j] in a;
      assert s[j..j + 2][0] == s[j];
    }
    assert k == |a|;
    assert s[k + 2..] == b;
    assert IndexOf(b, "..") == -1 by {
      forall j | 0 <= j ensures !OccursAt(b, "..", j) {
        if j + 2 <= |b| {
          assert b[j..j + 2][0] == b[j] && b[j] in b;
        }
      }
    }
  }

  lemma NoDotInShowInt(v: int)
    ensures '.' !in ShowInt(v)
  {
    if v < 0 {
      assert forall c :: c in DecimalString(-v) ==> IsDigit(c);
    }
  }

  /** Parsing the written form of a range gives the range back. */
  lemma ParseShowRange(r: ScoreRange)
    requires NoNaN(r)
    ensures ParseRange(ShowRange(r)) == r
  {
    var a, b := ShowBound(r.min), ShowBound(r.max);
    if r.min.At? { NoDotInShowInt(r.min.n); ParseShowInt(r.min.n); }
    if r.max.At? { NoDotInShowInt(r.max.n); ParseShowInt(r.max.n); }
    NoDotsSplit(a, b);
    var s := ShowRange(r);
    assert OccursAt(s, "..", |a|);
    assert Contains(s, "..");
    if r.min.At? {
      assert a != "" by { assert |DecimalString(if r.min.n < 0 then -r.min.n else r.min.n)| >= 1; }
    }
    if r.max.At? {
      assert b != "" by { assert |DecimalString(if r.max.n < 0 then -r.max.n else r.max.n)| >= 1; }
    }
  }

  // ------------------------------------------------- transfer on states

  /** The states inherited from the callers: a null value is not known. */
  function FromConsensus(consensus: map<string, FunctionIndex.ScoreState>): (r: map<string, Kind>)
    ensures r.Keys == consensus.Keys
    ensures forall k :: k in r ==>
              (r[k].Known? <==> consensus[k].value.Some?) && (r[k].Known? ==> r[k].value == consensus[k].value.value)
    ensures forall k :: k in r ==> !r[k].Reset?
  {
    map k | k in consensus :: if consensus[k].value.Some? then Known(consensus[k].value.value) else Unknown
  }

  /** What an inline `scoreboard players set` leaves. */
  function SetKind(conditional: bool, v: int): Kind {
    if conditional then Unknown else Known(v)
  }

  /** What an inline add/remove of `delta` leaves: only a known, unconditional base stays known. */
  function AddKind(existing: Option<Kind>, conditional: bool, delta: int): (k: Kind)
    ensures k.Known? <==> !conditional && existing.Some? && existing.value.Known?
    ensures k.Known? ==> k.value == existing.value.value + delta
  {
    if !conditional && existing.Some? && existing.value.Known? then Known(existing.value.value + delta) else Unknown
  }

  /** What an inline reset leaves. */
  function ResetKind(conditional: bool): Kind {
    if conditional then Unknown else Reset
  }

  function Lookup(states: map<string, Kind>, key: string): Option<Kind> {
    if key in states then Some(states[key]) else None
  }

  /** Every tracked key whose name starts with `target:` gets `v`; nothing is added. */
  function MarkTarget<V>(states: map<string, V>, target: string, v: V): (r: map<string, V>)
    ensures r.Keys == states.Keys
    ensures forall k :: k in r ==> r[k] == (if StartsWith(k, target + ":") then v else states[k])
  {
    map k | k in states :: if StartsWith(k, target + ":") then v else states[k]
  }

  /** Adding and then removing the same amount to a known score gives the score back. */
  lemma AddThenRemoveKind(v: int, delta: int)
    ensures AddKind(Some(AddKind(Some(Known(v)), false, delta)), false, -delta) == Known(v)
  {
  }
}
