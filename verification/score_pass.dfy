/**
 * What the two score passes (unreachable and always-pass conditions)
 * share: the warnings they report, the tracked states, the starting
 * states inherited from the callers, and the test whether a call behind
 * `execute` runs for certain.
 */
module ScorePass {
  import opened Wrappers
  import opened Text
  import opened Patterns
  import FunctionIndex
  import opened ScoreLattice

  /** A warning on line `line`, from column `start` to column `end`. */
  datatype Diag = Diag(line: nat, start: int, end: int)

  type States = map<string, Kind>

  function R(c: ScoreCondition): ScoreRange {
    ParseRange(c.rangeStr)
  }

  function KeyOf(c: ScoreCondition): string {
    FunctionIndex.Key(c.target, c.objective)
  }

  /** The warning over the first occurrence of the condition's text in the untrimmed line. */
  function DiagAt(line: string, i: nat, c: ScoreCondition): (d: Diag)
    ensures d.line == i && d.end - d.start == |c.text|
    ensures d.start == -1 || OccursAt(line, c.text, d.start)
  {
    var start := IndexOf(line, c.text);
    Diag(i, start, start + |c.text|)
  }

  function Diags(line: string, i: nat, cs: seq<ScoreCondition>): (r: seq<Diag>)
    ensures |r| == |cs| && forall j :: 0 <= j < |cs| ==> r[j] == DiagAt(line, i, cs[j])
  {
    seq(|cs|, j requires 0 <= j < |cs| => DiagAt(line, i, cs[j]))
  }

  /** The warnings for some conditions are exactly the warnings of each of them. */
  lemma DiagsMembers(line: string, i: nat, cs: seq<ScoreCondition>)
    ensures forall d :: d in Diags(line, i, cs) <==> exists c :: c in cs && d == DiagAt(line, i, c)
  {
    var r := Diags(line, i, cs);
    forall d | d in r
      ensures exists c :: c in cs && d == DiagAt(line, i, c)
    {
      var j :| 0 <= j < |r| && r[j] == d;
      assert cs[j] in cs;
    }
    forall c | c in cs
      ensures DiagAt(line, i, c) in r
    {
      var j :| 0 <= j < |cs| && cs[j] == c;
      assert r[j] == DiagAt(line, i, c);
    }
  }

  /** What the workspace index offers a pass: nothing when it is not initialized. */
  datatype Env = Env(idx: FunctionIndex.Index, initialized: bool, classify: Classifier)

  /** `execute store (result|success) score` makes the stored score unknown. */
  function Stored(s: States, m: Matches): (r: States)
    ensures m.store.None? ==> r == s
    ensures m.store.Some? ==> r == s[FunctionIndex.Key(m.store.value.target, m.store.value.objective) := Unknown]
  {
    if m.store.Some? then s[FunctionIndex.Key(m.store.value.target, m.store.value.objective) := Unknown] else s
  }

  /**
   * `isExecuteConditional`: whether the commands after `run` may not run. A
   * line that does not start with `execute` is never conditional.
   */
  predicate IsExecuteConditional(trimmed: string, m: Matches, s: States) {
    && StartsWith(trimmed, "execute")
    && (|| m.hasOn || m.hasRebind || m.hasNonScoreIfUnless
        || (m.hasScoreIfUnless && exists c :: c in m.conditions && !CondAlwaysTrue(s, c)))
  }

  predicate CondAlwaysTrue(s: States, c: ScoreCondition) {
    KeyOf(c) in s && IsAlwaysTrue(s[KeyOf(c)], c.condType, R(c))
  }

  /** A call behind `execute` runs for certain when it has no selector, no `on`, and only score conditions that always pass. */
  lemma UnconditionalCall(trimmed: string, m: Matches, s: States)
    requires StartsWith(trimmed, "execute")
    ensures !IsExecuteConditional(trimmed, m, s) <==>
              !m.hasOn && !m.hasRebind && !m.hasNonScoreIfUnless &&
              (m.hasScoreIfUnless ==> forall c :: c in m.conditions ==> KeyOf(c) in s && s[KeyOf(c)].Known?)
              && (m.hasScoreIfUnless ==> forall c :: c in m.conditions ==> CondAlwaysTrue(s, c))
  {
  }

  /** The values a forced application can leave on a key: the old one or Unknown. */
  predicate OnlyForgets(s: States, r: States) {
    forall k :: k in r ==> r[k] == Unknown || (k in s && r[k] == s[k])
  }

  /** The states the file starts from: the consensus of its callers, when the index knows the file. */
  function Inherited(filePath: Option<string>, env: Env): (r: States)
    ensures (filePath.None? || filePath == Some("") || !env.initialized) ==> r == map[]
    ensures forall k :: k in r ==> !r[k].Reset?
  {
    if filePath.Some? && filePath.value != "" && env.initialized then
      match FunctionIndex.GetFunctionInfoByFile(env.idx, filePath.value)
      case None => map[]
      case Some(info) => FromConsensus(FunctionIndex.ConsensusScoreStates(env.idx, info.fullPath))
    else map[]
  }
}
