/**
 * Chained `at` subcommands: in `execute at @a at @b …` the first `at` is
 * overridden by the second unless an `as @…` between them changes the
 * executor, or the second selector picks relative to the position (the
 * nearest entity, or a `limit` with `sort=nearest`).
 */
module ExecuteAtChain {
  import opened Wrappers
  import opened Text
  import opened Tokens
  import Seqs
  import opened Scans

  /** `hasSortNearestOrLimit`: the selector chooses the entity nearest to the current position. */
  predicate KeepsContext(sel: string) {
    NearestSelector(sel) || (HasLimit(sel) && SortsNearest(sel))
  }

  /** The `at` tokens as the global scan returns them: each a match, in order and apart. */
  predicate WellFormed(line: string, toks: seq<Hit>) {
    && (forall j :: 0 <= j < |toks| ==> toks[j].at < toks[j].sel.start && IsMatch(line, toks[j].sel, AnyLetter))
    && (forall j :: 0 <= j < |toks| - 1 ==> toks[j].sel.end <= toks[j + 1].at)
  }

  /**
   * `findAtTokens`: every `\bat\s+@…` of the line, left to right; no
   * `at @` starts before the first token, between two tokens, or after
   * the last.
   */
  function FindAtTokens(line: string): (r: seq<Hit>)
    ensures WellFormed(line, r)
    ensures forall h :: h in r ==> ProbeAt(line, h.at, AtProbe) == Some(h)
    ensures r == [] ==> NoHit(line, 0, |line| + 1, AtProbe)
    ensures r != [] ==> NoHit(line, 0, r[0].at, AtProbe) && NoHit(line, r[|r| - 1].sel.end, |line| + 1, AtProbe)
    ensures forall j :: 0 <= j < |r| - 1 ==> NoHit(line, r[j].sel.end, r[j + 1].at, AtProbe)
  {
    var r := AllFrom(line, 0, AtProbe);
    TokensFormed(line, r);
    r
  }

  lemma TokensFormed(line: string, r: seq<Hit>)
    requires forall h :: h in r ==> h.at <= |line| && ProbeAt(line, h.at, AtProbe) == Some(h)
    requires forall j :: 0 <= j < |r| - 1 ==> r[j].sel.end <= r[j + 1].at
    ensures WellFormed(line, r)
  {
    forall j | 0 <= j < |r| ensures r[j].at < r[j].sel.start && IsMatch(line, r[j].sel, AnyLetter) {
      assert r[j] in r;
    }
  }

  /**
   * The `at` of token `k` is overridden by token `k + 1`: no `as @` in
   * the text between them, and the next selector keeps no positional
   * choice.
   */
  predicate RedundantAt(line: string, toks: seq<Hit>, k: nat)
    requires WellFormed(line, toks) && k + 1 < |toks|
  {
    && !HasAs(line[toks[k].sel.end..toks[k + 1].at])
    && !KeepsContext(line[toks[k + 1].sel.start..toks[k + 1].sel.end])
  }

  /** For each token but the last, whether the next one overrides it. */
  function Overridden(line: string, toks: seq<Hit>): (r: seq<bool>)
    requires WellFormed(line, toks)
    ensures |r| == if |toks| == 0 then 0 else |toks| - 1
    ensures forall k :: 0 <= k < |r| ==> r[k] == RedundantAt(line, toks, k)
  {
    var n := if |toks| == 0 then 0 else |toks| - 1;
    seq(n, k requires 0 <= k < n => RedundantAt(line, toks, k))
  }

  /** The loop over the pairs from `i`: the first overridden token. */
  function FirstRedundant(line: string, toks: seq<Hit>, i: nat): (r: Option<nat>)
    requires WellFormed(line, toks)
    ensures r.Some? ==> i <= r.value && r.value + 1 < |toks| && RedundantAt(line, toks, r.value)
    ensures r.Some? ==> forall k :: i <= k < r.value ==> !RedundantAt(line, toks, k)
    ensures r.None? ==> forall k :: i <= k && k + 1 < |toks| ==> !RedundantAt(line, toks, k)
  {
    Seqs.FirstTrue(Overridden(line, toks), i)
  }

  /** Some token is overridden. */
  predicate AnyRedundant(line: string, toks: seq<Hit>)
    requires WellFormed(line, toks)
  {
    exists k :: 0 <= k && k + 1 < |toks| && RedundantAt(line, toks, k)
  }

  /** The loop finds a token exactly when some token is overridden. */
  lemma FirstRedundantFound(line: string, toks: seq<Hit>)
    requires WellFormed(line, toks)
    ensures FirstRedundant(line, toks, 0).Some? <==> AnyRedundant(line, toks)
  {
  }

  /** A warning on `[start, end)` of line `line`. */
  datatype AtChainDiag = AtChainDiag(line: nat, start: nat, end: nat)

  /**
   * `checkExecuteAtChain`: on an `execute` line, a warning over the
   * earliest `at @…` that the next one overrides, and none when no pair
   * of consecutive tokens qualifies.
   */
  function CheckExecuteAtChain(lineIndex: nat, line: string): (r: Option<AtChainDiag>)
    ensures r.Some? <==> StartsWith(Trim(line), "execute ") && AnyRedundant(line, FindAtTokens(line))
    ensures r.Some? ==>
              var toks := FindAtTokens(line);
              var k := FirstRedundant(line, toks, 0).value;
              r.value == AtChainDiag(lineIndex, toks[k].at, toks[k].sel.end)
  {
    FirstRedundantFound(line, FindAtTokens(line));
    if !StartsWith(Trim(line), "execute ") then None
    else
      var toks := FindAtTokens(line);
      if |toks| < 2 then None
      else
        match FirstRedundant(line, toks, 0)
        case None => None
        case Some(k) => Some(AtChainDiag(lineIndex, toks[k].at, toks[k].sel.end))
  }

  /** The span of an `at` token: the word `at`, spaces, then the selector, which ends the span. */
  predicate AtSpan(line: string, start: nat, end: nat) {
    && start + 2 < end <= |line|
    && line[start..start + 2] == "at" && WordBoundary(line, start)
    && exists q :: start + 2 < q < end && line[q] == '@' && forall c :: start + 2 <= c < q ==> IsSpace(line[c])
  }

  lemma TokenSpan(line: string, h: Hit)
    requires h.at <= |line| && ProbeAt(line, h.at, AtProbe) == Some(h)
    ensures AtSpan(line, h.at, h.sel.end)
  {
    assert WordAt(line, h.at, "at");
    assert SpacedSelector(line, h.at + 2) == Some(h.sel);
    var q := h.sel.start;
    assert line[q] == '@';
  }

  /** The warned span is a whole `at @…` subcommand. */
  lemma WarnedSpan(lineIndex: nat, line: string)
    requires CheckExecuteAtChain(lineIndex, line).Some?
    ensures var d := CheckExecuteAtChain(lineIndex, line).value;
            AtSpan(line, d.start, d.end)
  {
    var toks := FindAtTokens(line);
    var k := FirstRedundant(line, toks, 0).value;
    assert toks[k] in toks;
    TokenSpan(line, toks[k]);
  }
}
