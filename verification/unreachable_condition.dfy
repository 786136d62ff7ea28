/**
 * The unreachable-condition rule: `if score` / `unless score` conditions
 * that can never pass, because they contradict another condition on the
 * same line or the score value the file has established before the line.
 */
module UnreachableCondition {
  import opened Wrappers
  import opened Text
  import opened Seqs
  import opened Patterns
  import FunctionIndex
  import opened ScoreLattice
  import opened ScorePass

  // ------------------------------------------------ conflicts in one line

  /** Some earlier `if` condition of `ifs` has a range that does not overlap the one of `c`. */
  predicate DisjointFromEarlier(ifs: seq<ScoreCondition>, c: ScoreCondition) {
    exists i, j :: 0 <= i < j < |ifs| && ifs[j] == c && !RangesOverlap(R(ifs[i]), R(ifs[j]))
  }

  /** For every pair `i < j` of `if` conditions whose ranges do not overlap, the later one. */
  function PairFlags(ifs: seq<ScoreCondition>): (r: seq<ScoreCondition>)
    ensures forall c :: c in r <==> DisjointFromEarlier(ifs, c)
    decreases |ifs|
  {
    if ifs == [] then []
    else
      var head := Filter(ifs[1..], c => !RangesOverlap(R(ifs[0]), R(c)));
      var rest := PairFlags(ifs[1..]);
      PairFlagsStep(ifs, head, rest);
      head + rest
  }

  lemma PairFlagsStep(ifs: seq<ScoreCondition>, head: seq<ScoreCondition>, rest: seq<ScoreCondition>)
    requires ifs != []
    requires forall c :: c in head <==> c in ifs[1..] && !RangesOverlap(R(ifs[0]), R(c))
    requires forall c :: c in rest <==> DisjointFromEarlier(ifs[1..], c)
    ensures forall c :: c in head + rest <==> DisjointFromEarlier(ifs, c)
  {
    var tail := ifs[1..];
    forall c | c in head + rest ensures DisjointFromEarlier(ifs, c) {
      if c in head {
        var j :| 0 <= j < |tail| && tail[j] == c;
        assert ifs[j + 1] == c && ifs[0] == ifs[0];
        assert 0 < j + 1 < |ifs| && !RangesOverlap(R(ifs[0]), R(ifs[j + 1]));
      } else {
        assert c in rest;
        var i, j :| 0 <= i < j < |tail| && tail[j] == c && !RangesOverlap(R(tail[i]), R(tail[j]));
        assert ifs[i + 1] == tail[i] && ifs[j + 1] == tail[j];
      }
    }
    forall c | DisjointFromEarlier(ifs, c) ensures c in head + rest {
      var i, j :| 0 <= i < j < |ifs| && ifs[j] == c && !RangesOverlap(R(ifs[i]), R(ifs[j]));
      assert tail[j - 1] == c;
      if i == 0 {
        assert c in tail;
        assert c in head;
      } else {
        assert tail[i - 1] == ifs[i];
        assert DisjointFromEarlier(tail, c);
      }
    }
  }

  /** For every `if` and every `unless` with the same range, the `unless`. */
  function EqualFlags(ifs: seq<ScoreCondition>, unls: seq<ScoreCondition>): (r: seq<ScoreCondition>)
    ensures forall c :: c in r <==> c in unls && exists f :: f in ifs && RangesEqual(R(f), R(c))
  {
    Related(ifs, unls, (f: ScoreCondition, u: ScoreCondition) => RangesEqual(R(f), R(u)))
  }

  /** For every `unless` and every `if` whose range the `unless` range contains, the `if`. */
  function ContainFlags(unls: seq<ScoreCondition>, ifs: seq<ScoreCondition>): (r: seq<ScoreCondition>)
    ensures forall c :: c in r <==> c in ifs && exists u :: u in unls && RangeContains(R(u), R(c))
  {
    Related(unls, ifs, (u: ScoreCondition, f: ScoreCondition) => RangeContains(R(u), R(f)))
  }

  function Ifs(g: seq<ScoreCondition>): (r: seq<ScoreCondition>)
    ensures forall c :: c in r <==> c in g && c.condType == If
  {
    Filter(g, (c: ScoreCondition) => c.condType == If)
  }

  function Unlesses(g: seq<ScoreCondition>): (r: seq<ScoreCondition>)
    ensures forall c :: c in r <==> c in g && c.condType == Unless
  {
    Filter(g, (c: ScoreCondition) => c.condType == Unless)
  }

  /** The conditions flagged within one group of conditions on the same score; a lone condition is never flagged. */
  function GroupFlags(g: seq<ScoreCondition>): (r: seq<ScoreCondition>)
    ensures |g| < 2 ==> r == []
    ensures forall c :: c in r ==> c in g
  {
    if |g| < 2 then []
    else
      var ifs, unls := Ifs(g), Unlesses(g);
      PairFlags(ifs) + EqualFlags(ifs, unls) + ContainFlags(unls, ifs)
  }

  /** The conditions of the line on the score `key`, in order. */
  function Group(conds: seq<ScoreCondition>, key: string): (r: seq<ScoreCondition>)
    ensures forall c :: c in r <==> c in conds && KeyOf(c) == key
  {
    Filter(conds, (c: ScoreCondition) => KeyOf(c) == key)
  }

  /** The scores the line's conditions test, in order of first appearance. */
  function GroupKeys(conds: seq<ScoreCondition>): (r: seq<string>)
    ensures forall k :: k in r <==> exists c :: c in conds && KeyOf(c) == k
  {
    var keys := seq(|conds|, i requires 0 <= i < |conds| => KeyOf(conds[i]));
    assert forall k :: k in keys <==> exists c :: c in conds && KeyOf(c) == k by {
      forall k | exists c :: c in conds && KeyOf(c) == k ensures k in keys {
        var c :| c in conds && KeyOf(c) == k;
        var i :| 0 <= i < |conds| && conds[i] == c;
        assert keys[i] == k;
      }
    }
    Distinct(keys, {})
  }

  /** The flags of each group, one entry per score. */
  function FlagsPerKey(conds: seq<ScoreCondition>, keys: seq<string>): (r: seq<seq<ScoreCondition>>)
    ensures |r| == |keys| && forall i :: 0 <= i < |keys| ==> r[i] == GroupFlags(Group(conds, keys[i]))
  {
    seq(|keys|, i requires 0 <= i < |keys| => GroupFlags(Group(conds, keys[i])))
  }

  /** `c` is flagged within the group of its own score. */
  predicate FlaggedInGroup(conds: seq<ScoreCondition>, c: ScoreCondition) {
    c in GroupFlags(Group(conds, KeyOf(c)))
  }

  lemma FlaggedFromKey(conds: seq<ScoreCondition>, keys: seq<string>, i: nat, c: ScoreCondition)
    requires i < |keys| && c in GroupFlags(Group(conds, keys[i]))
    ensures FlaggedInGroup(conds, c)
  {
    assert c in Group(conds, keys[i]);
  }

  lemma KeyOfFlagged(conds: seq<ScoreCondition>, keys: seq<string>, c: ScoreCondition)
    requires forall k :: k in keys <==> exists x :: x in conds && KeyOf(x) == k
    requires FlaggedInGroup(conds, c)
    ensures exists i :: 0 <= i < |keys| && keys[i] == KeyOf(c)
  {
    assert c in Group(conds, KeyOf(c));
    assert KeyOf(c) in keys;
  }

  /** `checkConflictingConditionsInLine`: the flagged conditions, group by group. */
  function LineConflicts(conds: seq<ScoreCondition>): (r: seq<ScoreCondition>)
    ensures forall c :: c in r <==> FlaggedInGroup(conds, c)
  {
    var keys := GroupKeys(conds);
    var per := FlagsPerKey(conds, keys);
    PerKeyFlagged(conds, keys, per);
    Flatten(per)
  }

  /** The flags of the groups of all scores the line tests are its flagged conditions. */
  lemma PerKeyFlagged(conds: seq<ScoreCondition>, keys: seq<string>, per: seq<seq<ScoreCondition>>)
    requires forall k :: k in keys <==> exists x :: x in conds && KeyOf(x) == k
    requires |per| == |keys| && forall i :: 0 <= i < |keys| ==> per[i] == GroupFlags(Group(conds, keys[i]))
    ensures forall c :: (exists i :: 0 <= i < |per| && c in per[i]) <==> FlaggedInGroup(conds, c)
  {
    forall c | exists i :: 0 <= i < |per| && c in per[i] ensures FlaggedInGroup(conds, c) {
      var i :| 0 <= i < |per| && c in per[i];
      FlaggedFromKey(conds, keys, i, c);
    }
    forall c | FlaggedInGroup(conds, c) ensures exists i :: 0 <= i < |per| && c in per[i] {
      KeyOfFlagged(conds, keys, c);
      var i :| 0 <= i < |keys| && keys[i] == KeyOf(c);
      assert c in per[i];
    }
  }

  /** Only conditions of the line are flagged. */
  lemma ConflictsAreConditions(conds: seq<ScoreCondition>, c: ScoreCondition)
    requires c in LineConflicts(conds)
    ensures c in conds
  {
    assert c in Group(conds, KeyOf(c));
  }

  /**
   * Every flag is justified: no 32-bit score value passes all the
   * conditions of the group (when no range end is NaN).
   */
  lemma GroupFlagsSound(g: seq<ScoreCondition>, c: ScoreCondition, v: int)
    requires forall x :: x in g ==> NoNaN(R(x))
    requires MinScore <= v <= MaxScore
    requires c in GroupFlags(g)
    ensures exists x :: x in g && !(if x.condType == If then MatchesRange(v, R(x)) else !MatchesRange(v, R(x)))
  {
    var ifs, unls := Ifs(g), Unlesses(g);
    if c in PairFlags(ifs) {
      var i, j :| 0 <= i < j < |ifs| && ifs[j] == c && !RangesOverlap(R(ifs[i]), R(ifs[j]));
      assert ifs[i] in ifs && ifs[j] in ifs;
      OverlapIffCommonValue(R(ifs[i]), R(ifs[j]));
      AdmitsIsMatching(v, R(ifs[i]));
      AdmitsIsMatching(v, R(ifs[j]));
      if MatchesRange(v, R(ifs[i])) {
        assert !MatchesRange(v, R(ifs[j]));
      } else {
        assert ifs[i] in g;
      }
    } else if c in EqualFlags(ifs, unls) {
      var f :| f in ifs && RangesEqual(R(f), R(c));
      assert R(f) == R(c);
      assert f in g && c in g;
    } else {
      assert c in ContainFlags(unls, ifs);
      var u :| u in unls && RangeContains(R(u), R(c));
      AdmitsIsMatching(v, R(c));
      AdmitsIsMatching(v, R(u));
      if MatchesRange(v, R(c)) {
        ContainmentLeavesNoValue(R(u), R(c), v);
      }
      assert u in g && c in g;
    }
  }

  // --------------------------------------------------------- score changes

  /** `applyScoreChange`: a callee's change applied to the caller's states; `force` makes it conditional. */
  function ApplyScoreChange(s: States, c: FunctionIndex.ScoreChange, force: bool): (r: States)
    ensures var key := FunctionIndex.Key(c.target, c.objective);
            && (force || c.isConditional ==> r == s[key := Unknown])
            && (!(c.operation.OpReset? && c.objective == "*") ==> key in r)
  {
    var key := FunctionIndex.Key(c.target, c.objective);
    if force || c.isConditional then s[key := Unknown]
    else match c.operation
      case OpSet(v) => s[key := Known(v)]
      case OpAdd(a) => s[key := AddKind(Lookup(s, key), false, a)]
      case OpRemove(a) => s[key := AddKind(Lookup(s, key), false, -a)]
      case OpReset => if c.objective == "*" then MarkTarget(s, c.target, Reset) else s[key := Reset]
      case OpUnknown => s[key := Unknown]
  }

  function ApplyScoreChanges(s: States, cs: seq<FunctionIndex.ScoreChange>, force: bool): States
    decreases |cs|
  {
    if cs == [] then s else ApplyScoreChanges(ApplyScoreChange(s, cs[0], force), cs[1..], force)
  }

  /**
   * Changes made by a call that may not run never make a score known or
   * reset: every key keeps its state or becomes Unknown, and no key is lost.
   */
  lemma {:induction false} ForcedChangesOnlyForget(s: States, cs: seq<FunctionIndex.ScoreChange>)
    ensures OnlyForgets(s, ApplyScoreChanges(s, cs, true))
    ensures s.Keys <= ApplyScoreChanges(s, cs, true).Keys
    decreases |cs|
  {
    if cs != [] {
      var s1 := ApplyScoreChange(s, cs[0], true);
      ForcedChangesOnlyForget(s1, cs[1..]);
    }
  }

  /** An unconditional set makes the score known; other keys keep their state. */
  lemma SetChangeOutcome(s: States, c: FunctionIndex.ScoreChange, k: string)
    requires !c.isConditional && c.operation.OpSet?
    ensures var r := ApplyScoreChange(s, c, false);
            && r[FunctionIndex.Key(c.target, c.objective)] == Known(c.operation.value)
            && (k != FunctionIndex.Key(c.target, c.objective) ==> (k in r <==> k in s) && (k in s ==> r[k] == s[k]))
  {
  }

  // ------------------------------------------------------------ the pass

  /** The condition is decided unreachable by the state tracked for its score. */
  predicate CondUnreachable(s: States, c: ScoreCondition) {
    KeyOf(c) in s && IsUnreachable(s[KeyOf(c)], c.condType, R(c))
  }

  function UnreachableConds(s: States, conds: seq<ScoreCondition>): (r: seq<ScoreCondition>)
    ensures forall c :: c in r <==> c in conds && CondUnreachable(s, c)
  {
    Filter(conds, (c: ScoreCondition) => CondUnreachable(s, c))
  }

  datatype Step = Step(states: States, diags: seq<Diag>)

  /** The scoreboard commands of a line; None when the line has none of them. */
  function Command(s: States, trimmed: string, m: Matches): (r: Option<States>)
    ensures var p := Plain(trimmed, m);
            r.None? <==> p.setCmd.None? && p.addCmd.None? && p.resetCmd.None? && p.operationCmd.None?
  {
    var p := Plain(trimmed, m);
    var cond := StartsWith(trimmed, "execute");
    if p.setCmd.Some? then
      var c := p.setCmd.value;
      Some(if Trackable(c.target) then s[FunctionIndex.Key(c.target, c.objective) := SetKind(cond, c.value)] else s)
    else if p.addCmd.Some? then
      var c := p.addCmd.value;
      var key := FunctionIndex.Key(c.target, c.objective);
      Some(if Trackable(c.target) then s[key := AddKind(Lookup(s, key), cond, if c.isAdd then c.amount else -c.amount)] else s)
    else if p.resetCmd.Some? then
      var c := p.resetCmd.value;
      Some(if !Trackable(c.target) then s
           else if c.objective.Some? then s[FunctionIndex.Key(c.target, c.objective.value) := ResetKind(cond)]
           else MarkTarget(s, c.target, ResetKind(cond)))
    else if p.operationCmd.Some? then
      var c := p.operationCmd.value;
      Some(if Trackable(c.target) then s[FunctionIndex.Key(c.target, c.objective) := Unknown] else s)
    else None
  }

  /** A function call on a line with no unreachable condition applies the callee's changes. */
  function Call(s: States, trimmed: string, m: Matches, env: Env): States {
    if m.runFunction.Some? && env.initialized then
      match FunctionIndex.GetFunctionInfo(env.idx, m.runFunction.value)
      case None => s
      case Some(info) => ApplyScoreChanges(s, info.scoreChanges, IsExecuteConditional(trimmed, m, s))
    else if m.ifFunction.Some? && env.initialized then
      match FunctionIndex.GetFunctionInfo(env.idx, m.ifFunction.value)
      case None => s
      case Some(info) => ApplyScoreChanges(s, info.scoreChanges, true)
    else s
  }

  /** One line of `checkUnreachableCondition`. */
  function LineStep(s: States, line: string, i: nat, env: Env): (r: Step)
    ensures Skipped(Trim(line)) ==> r == Step(s, [])
    ensures forall d :: d in r.diags ==> d.line == i
  {
    var trimmed := Trim(line);
    if Skipped(trimmed) then Step(s, [])
    else
      var m := env.classify(trimmed);
      var conflicts := Diags(line, i, LineConflicts(m.conditions));
      var s1 := Stored(s, m);
      match Command(s1, trimmed, m)
      case Some(s2) => Step(s2, conflicts)
      case None =>
        var dead := UnreachableConds(s1, m.conditions);
        if dead != [] then Step(s1, conflicts + Diags(line, i, dead))
        else Step(Call(s1, trimmed, m, env), conflicts)
  }

  function Run(s: States, lines: seq<string>, i: nat, env: Env): (r: Step)
    requires i <= |lines|
    decreases |lines| - i
  {
    if i == |lines| then Step(s, [])
    else
      var st := LineStep(s, lines[i], i, env);
      var rest := Run(st.states, lines, i + 1, env);
      Step(rest.states, st.diags + rest.diags)
  }

  /** The scores tracked when the pass started at line `i` reaches line `j`. */
  function StatesAt(s: States, lines: seq<string>, i: nat, j: nat, env: Env): States
    requires i <= j <= |lines|
    decreases j - i
  {
    if i == j then s else StatesAt(LineStep(s, lines[i], i, env).states, lines, i + 1, j, env)
  }

  /** `checkUnreachableCondition`. */
  function CheckUnreachableCondition(lines: seq<string>, filePath: Option<string>, env: Env): seq<Diag> {
    Run(Inherited(filePath, env), lines, 0, env).diags
  }

  // --------------------------------------------------------------- lemmas

  /** Line `j`'s step, in the scores the pass from `i` has reached there, warns `d`. */
  predicate StepWarns(s: States, lines: seq<string>, i: nat, j: nat, env: Env, d: Diag)
    requires i <= j < |lines|
  {
    d in LineStep(StatesAt(s, lines, i, j, env), lines[j], j, env).diags
  }

  /** A pass from `i` reaches a later line in the scores of the pass from `i + 1` after line `i`. */
  lemma StatesAtShift(s: States, lines: seq<string>, i: nat, j: nat, env: Env)
    requires i < j <= |lines|
    ensures StatesAt(s, lines, i, j, env) == StatesAt(LineStep(s, lines[i], i, env).states, lines, i + 1, j, env)
  {
  }

  /** The pass warns what the first line warns, then what the rest of the pass warns. */
  lemma RunDiagsCons(s: States, lines: seq<string>, i: nat, env: Env)
    requires i < |lines|
    ensures var st := LineStep(s, lines[i], i, env);
            Run(s, lines, i, env).diags == st.diags + Run(st.states, lines, i + 1, env).diags
  {
  }

  /** A warning of the pass is exactly a warning of some line's step, in the scores the pass has reached there. */
  lemma {:induction false} RunDiagsIff(s: States, lines: seq<string>, i: nat, env: Env, d: Diag)
    requires i <= |lines|
    ensures d in Run(s, lines, i, env).diags <==> exists j :: i <= j < |lines| && StepWarns(s, lines, i, j, env, d)
    decreases |lines| - i
  {
    if i < |lines| {
      var st := LineStep(s, lines[i], i, env);
      var rest := Run(st.states, lines, i + 1, env);
      RunDiagsIff(st.states, lines, i + 1, env, d);
      RunDiagsCons(s, lines, i, env);
      if d in st.diags {
        assert StepWarns(s, lines, i, i, env, d);
      } else if d in rest.diags {
        var j :| i + 1 <= j < |lines| && StepWarns(st.states, lines, i + 1, j, env, d);
        StatesAtShift(s, lines, i, j, env);
        assert StepWarns(s, lines, i, j, env, d);
      }
      if exists j :: i <= j < |lines| && StepWarns(s, lines, i, j, env, d) {
        var j :| i <= j < |lines| && StepWarns(s, lines, i, j, env, d);
        if j > i {
          StatesAtShift(s, lines, i, j, env);
          assert StepWarns(st.states, lines, i + 1, j, env, d);
        }
      }
    }
  }

  /** The pass ends in the scores it has reached after the last line. */
  lemma {:induction false} RunStates(s: States, lines: seq<string>, i: nat, env: Env)
    requires i <= |lines|
    ensures Run(s, lines, i, env).states == StatesAt(s, lines, i, |lines|, env)
    decreases |lines| - i
  {
    if i < |lines| {
      RunStates(LineStep(s, lines[i], i, env).states, lines, i + 1, env);
    }
  }

  /** Every warning of the pass is on a line of the file. */
  lemma {:induction false} DiagsOnLines(s: States, lines: seq<string>, i: nat, env: Env)
    requires i <= |lines|
    ensures forall d :: d in Run(s, lines, i, env).diags ==> i <= d.line < |lines|
    decreases |lines| - i
  {
    if i < |lines| {
      var st := LineStep(s, lines[i], i, env);
      DiagsOnLines(st.states, lines, i + 1, env);
    }
  }

  /** Blank lines and comments neither warn nor change the tracked states. */
  lemma SkippedLineIsInert(s: States, line: string, i: nat, env: Env)
    requires Skipped(Trim(line))
    ensures LineStep(s, line, i, env) == Step(s, [])
  {
  }

  /**
   * A line that tests a score after an unconditional set of it on the
   * line before warns about a condition the value contradicts.
   */
  lemma SetThenContradiction(s: States, lines: seq<string>, i: nat, env: Env, target: string, objective: string,
                             v: int, c: ScoreCondition)
    requires i + 1 < |lines|
    requires var t := Trim(lines[i]); var m := env.classify(t);
             && !Skipped(t) && !StartsWith(t, "execute") && !StartsWith(t, "$")
             && m.store.None? && m.setCmd == Some(SetMatch(target, objective, v)) && Trackable(target)
    requires var t := Trim(lines[i + 1]); var m := env.classify(t);
             && !Skipped(t) && m.store.None?
             && Plain(t, m).setCmd.None? && Plain(t, m).addCmd.None?
             && Plain(t, m).resetCmd.None? && Plain(t, m).operationCmd.None?
             && c in m.conditions && c.target == target && c.objective == objective
             && IsUnreachable(Known(v), c.condType, R(c))
    ensures DiagAt(lines[i + 1], i + 1, c) in LineStep(LineStep(s, lines[i], i, env).states, lines[i + 1], i + 1, env).diags
  {
    SetLineStores(s, lines[i], i, env, target, objective, v);
    ContradictionWarns(LineStep(s, lines[i], i, env).states, lines[i + 1], i + 1, env, v, c);
  }

  /** An unconditional inline set of a trackable score stores its value. */
  lemma SetLineStores(s: States, line: string, i: nat, env: Env, target: string, objective: string, v: int)
    requires var t := Trim(line); var m := env.classify(t);
             && !Skipped(t) && !StartsWith(t, "execute") && !StartsWith(t, "$")
             && m.store.None? && m.setCmd == Some(SetMatch(target, objective, v)) && Trackable(target)
    ensures LineStep(s, line, i, env).states == s[FunctionIndex.Key(target, objective) := Known(v)]
  {
  }

  /** A condition the stored value contradicts is warned about on its line. */
  lemma ContradictionWarns(s: States, line: string, i: nat, env: Env, v: int, c: ScoreCondition)
    requires KeyOf(c) in s && s[KeyOf(c)] == Known(v)
    requires var t := Trim(line); var m := env.classify(t);
             && !Skipped(t) && m.store.None?
             && Plain(t, m).setCmd.None? && Plain(t, m).addCmd.None?
             && Plain(t, m).resetCmd.None? && Plain(t, m).operationCmd.None?
             && c in m.conditions && IsUnreachable(Known(v), c.condType, R(c))
    ensures DiagAt(line, i, c) in LineStep(s, line, i, env).diags
  {
    var t := Trim(line);
    var m := env.classify(t);
    var dead := UnreachableConds(Stored(s, m), m.conditions);
    assert c in dead;
    var ds := Diags(line, i, dead);
    var j :| 0 <= j < |dead| && dead[j] == c;
    assert ds[j] == DiagAt(line, i, c);
  }

  /** A selector or the wildcard as target is never tracked by an inline set. */
  lemma UntrackedSetIsInert(s: States, line: string, i: nat, env: Env)
    requires var t := Trim(line); var m := env.classify(t);
             && !Skipped(t) && !StartsWith(t, "$") && m.store.None?
             && m.setCmd.Some? && !Trackable(m.setCmd.value.target)
    ensures LineStep(s, line, i, env).states == s
  {
  }

  /** A line with an unreachable condition does not apply the changes of the function it calls. */
  lemma DeadLineSkipsCall(s: States, line: string, i: nat, env: Env)
    requires var t := Trim(line); var m := env.classify(t);
             && !Skipped(t) && Command(Stored(s, m), t, m).None?
             && exists c :: c in m.conditions && CondUnreachable(Stored(s, m), c)
    ensures var t := Trim(line); var m := env.classify(t);
            LineStep(s, line, i, env).states == Stored(s, m)
  {
    var t := Trim(line);
    var m := env.classify(t);
    var c :| c in m.conditions && CondUnreachable(Stored(s, m), c);
    assert c in UnreachableConds(Stored(s, m), m.conditions);
  }

  /**
   * The diagnostics of a line without scoreboard commands are exactly the
   * warnings of its conflicting conditions and of its unreachable ones.
   */
  lemma LineDiagsIff(s: States, line: string, i: nat, env: Env)
    requires var t := Trim(line); var m := env.classify(t);
             && !Skipped(t) && Command(Stored(s, m), t, m).None?
    ensures var t := Trim(line); var m := env.classify(t); var s1 := Stored(s, m);
            forall d :: d in LineStep(s, line, i, env).diags <==>
              (exists c :: c in LineConflicts(m.conditions) && d == DiagAt(line, i, c))
              || (exists c :: c in m.conditions && CondUnreachable(s1, c) && d == DiagAt(line, i, c))
  {
    var t := Trim(line);
    var m := env.classify(t);
    var s1 := Stored(s, m);
    var dead := UnreachableConds(s1, m.conditions);
    var conflicts := LineConflicts(m.conditions);
    DiagsMembers(line, i, conflicts);
    DiagsMembers(line, i, dead);
    var ds := LineStep(s, line, i, env).diags;
    if dead != [] {
      assert ds == Diags(line, i, conflicts) + Diags(line, i, dead);
    } else {
      assert ds == Diags(line, i, conflicts);
      assert forall c :: !(c in m.conditions && CondUnreachable(s1, c));
    }
  }
}
