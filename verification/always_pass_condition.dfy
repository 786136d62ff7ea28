/**
 * The always-pass-condition rule: `if score` / `unless score` conditions
 * that always pass given the score values established before the line,
 * and the `execute … run return` lines that therefore always return.
 */
module AlwaysPassCondition {
  import opened Wrappers
  import opened Text
  import opened Seqs
  import opened Patterns
  import FunctionIndex
  import opened ScoreLattice
  import opened ScorePass

  /** The condition passes for certain in the tracked state (a reset score passes `unless`). */
  predicate CondPasses(s: States, c: ScoreCondition) {
    KeyOf(c) in s && AlwaysPasses(s[KeyOf(c)], c.condType, ParseRangeLenient(c.rangeStr))
  }

  /** The inline scoreboard commands, applied one after the other (none of them ends the line). */
  function Commands(s: States, trimmed: string, m: Matches): (r: States)
    ensures var p := Plain(trimmed, m);
            p.setCmd.None? && p.addCmd.None? && p.resetCmd.None? && p.operationCmd.None? ==> r == s
  {
    var p := Plain(trimmed, m);
    var cond := StartsWith(trimmed, "execute");
    var s1 :=
      if p.setCmd.Some? && Trackable(p.setCmd.value.target) then
        s[FunctionIndex.Key(p.setCmd.value.target, p.setCmd.value.objective) := SetKind(cond, p.setCmd.value.value)]
      else s;
    var s2 :=
      if p.addCmd.Some? && Trackable(p.addCmd.value.target) then
        var c := p.addCmd.value;
        var key := FunctionIndex.Key(c.target, c.objective);
        s1[key := AddKind(Lookup(s1, key), cond, if c.isAdd then c.amount else -c.amount)]
      else s1;
    var s3 :=
      if p.resetCmd.Some? && Trackable(p.resetCmd.value.target) then
        var c := p.resetCmd.value;
        if c.objective.Some? then s2[FunctionIndex.Key(c.target, c.objective.value) := ResetKind(cond)]
        else MarkTarget(s2, c.target, ResetKind(cond))
      else s2;
    if p.operationCmd.Some? && Trackable(p.operationCmd.value.target) then
      s3[FunctionIndex.Key(p.operationCmd.value.target, p.operationCmd.value.objective) := Unknown]
    else s3
  }

  /** The conditions that always pass; each gets a warning. */
  function PassingConds(s: States, conds: seq<ScoreCondition>): (r: seq<ScoreCondition>)
    ensures forall c :: c in r <==> c in conds && CondPasses(s, c)
  {
    Filter(conds, (c: ScoreCondition) => CondPasses(s, c))
  }

  /** `allConditionsAlwaysPass`: every score condition of the line always passes. */
  predicate AllPass(s: States, conds: seq<ScoreCondition>) {
    forall c :: c in conds ==> CondPasses(s, c)
  }

  /**
   * What a line must look like to always return, whatever the scores: an
   * `execute` with score conditions only, no `as @…` rebinding, and
   * `run return`.
   */
  predicate ReturnShape(trimmed: string, m: Matches) {
    && m.conditions != []
    && StartsWith(trimmed, "execute ")
    && m.hasRunReturn && !m.hasAs
    && m.ifUnlessCount <= |m.conditions|
  }

  /** The line always returns: it has that shape and all its conditions always pass. */
  predicate AlwaysReturns(trimmed: string, m: Matches, s: States) {
    ReturnShape(trimmed, m) && AllPass(s, m.conditions)
  }

  /**
   * A callee's change seen from a call site: a conditional change or call
   * makes the key unknown; add and remove are not followed.
   */
  function CalleeChange(s: States, c: FunctionIndex.ScoreChange, conditionalCall: bool): (r: States)
    ensures (c.operation.OpAdd? || c.operation.OpRemove?) && !c.isConditional && !conditionalCall ==> r == s
  {
    var key := FunctionIndex.Key(c.target, c.objective);
    if c.isConditional || conditionalCall then s[key := Unknown]
    else match c.operation
      case OpSet(v) => s[key := Known(v)]
      case OpReset => if c.objective == "*" then MarkTarget(s, c.target, Reset) else s[key := Reset]
      case OpUnknown => s[key := Unknown]
      case _ => s
  }

  function CalleeChanges(s: States, cs: seq<FunctionIndex.ScoreChange>, conditionalCall: bool): States
    decreases |cs|
  {
    if cs == [] then s else CalleeChanges(CalleeChange(s, cs[0], conditionalCall), cs[1..], conditionalCall)
  }

  /** Every key a callee's changes mention becomes unknown (`if function` / `unless function`). */
  function ForgetChanges(s: States, cs: seq<FunctionIndex.ScoreChange>): States
    decreases |cs|
  {
    if cs == [] then s else ForgetChanges(s[FunctionIndex.Key(cs[0].target, cs[0].objective) := Unknown], cs[1..])
  }

  function Call(s: States, trimmed: string, m: Matches, allPass: bool, env: Env): States {
    var p := Plain(trimmed, m);
    if p.runFunction.Some? && env.initialized then
      match FunctionIndex.GetFunctionInfo(env.idx, p.runFunction.value)
      case None => s
      case Some(info) => CalleeChanges(s, info.scoreChanges, IsExecuteConditional(trimmed, m, s))
    else if m.ifFunction.Some? && env.initialized && (m.conditions == [] || allPass) then
      match FunctionIndex.GetFunctionInfo(env.idx, m.ifFunction.value)
      case None => s
      case Some(info) => ForgetChanges(s, info.scoreChanges)
    else s
  }

  datatype Step = Step(states: States, diags: seq<Diag>, alwaysReturns: bool)

  /** One line of `checkAlwaysPassCondition`. */
  function LineStep(s: States, line: string, i: nat, env: Env): (r: Step)
    ensures Skipped(Trim(line)) ==> r == Step(s, [], false)
    ensures forall d :: d in r.diags ==> d.line == i
    ensures r.alwaysReturns ==> ReturnShape(Trim(line), env.classify(Trim(line)))
  {
    var trimmed := Trim(line);
    if Skipped(trimmed) then Step(s, [], false)
    else
      var m := env.classify(trimmed);
      var s1 := Commands(Stored(s, m), trimmed, m);
      var allPass := AllPass(s1, m.conditions);
      Step(Call(s1, trimmed, m, allPass, env),
           Diags(line, i, PassingConds(s1, m.conditions)),
           AlwaysReturns(trimmed, m, s1))
  }

  datatype Report = Report(diags: seq<Diag>, alwaysReturns: seq<nat>)

  /** The pass from line `i` on: warnings on those lines, and the always-returning ones in increasing order. */
  function Run(s: States, lines: seq<string>, i: nat, env: Env): (r: Report)
    requires i <= |lines|
    ensures forall d :: d in r.diags ==> i <= d.line < |lines|
    ensures forall j :: 0 <= j < |r.alwaysReturns| ==> i <= r.alwaysReturns[j] < |lines|
    ensures forall j, k :: 0 <= j < k < |r.alwaysReturns| ==> r.alwaysReturns[j] < r.alwaysReturns[k]
    ensures forall j :: j in r.alwaysReturns ==> j < |lines| && ReturnShape(Trim(lines[j]), env.classify(Trim(lines[j])))
    decreases |lines| - i
  {
    if i == |lines| then Report([], [])
    else
      var st := LineStep(s, lines[i], i, env);
      var rest := Run(st.states, lines, i + 1, env);
      Report(st.diags + rest.diags, MarkLine(st.alwaysReturns, i, rest.alwaysReturns, |lines|))
  }

  /** Line `i` put in front of the increasing later lines when it is marked. */
  function MarkLine(mark: bool, i: nat, rest: seq<nat>, n: nat): (rs: seq<nat>)
    requires i < n
    requires forall j :: 0 <= j < |rest| ==> i < rest[j] < n
    requires forall j, k :: 0 <= j < k < |rest| ==> rest[j] < rest[k]
    ensures forall j :: 0 <= j < |rs| ==> i <= rs[j] < n
    ensures forall j, k :: 0 <= j < k < |rs| ==> rs[j] < rs[k]
    ensures mark <==> i in rs
    ensures forall x :: x in rs <==> x in rest || (mark && x == i)
  {
    if mark then
      var rs := [i] + rest;
      assert forall j :: 1 <= j < |rs| ==> rs[j] == rest[j - 1];
      rs
    else rest
  }

  /** The scores tracked when the pass started at line `i` reaches line `j`. */
  function StatesAt(s: States, lines: seq<string>, i: nat, j: nat, env: Env): States
    requires i <= j <= |lines|
    decreases j - i
  {
    if i == j then s else StatesAt(LineStep(s, lines[i], i, env).states, lines, i + 1, j, env)
  }

  /** `checkAlwaysPassCondition`: the warnings and the lines that always return. */
  function CheckAlwaysPassCondition(lines: seq<string>, filePath: Option<string>, env: Env): Report {
    Run(Inherited(filePath, env), lines, 0, env)
  }

  // --------------------------------------------------------------- lemmas

  /**
   * The two passes never both warn about one condition in one state: a
   * condition that always passes is not unreachable.
   */
  lemma NeverBothWarnings(s: States, c: ScoreCondition)
    requires CondPasses(s, c)
    ensures !(KeyOf(c) in s && IsUnreachable(s[KeyOf(c)], c.condType, R(c)))
  {
    var k := s[KeyOf(c)];
    var r, rl := R(c), ParseRangeLenient(c.rangeStr);
    if k.Known? {
      LenientMatchesAlike(c.rangeStr, k.value);
    }
  }

  /** A tracked state other than Unknown makes a condition pass here or be unreachable there. */
  lemma TrackedIsDecided(s: States, c: ScoreCondition)
    requires KeyOf(c) in s && !s[KeyOf(c)].Unknown?
    ensures CondPasses(s, c) || IsUnreachable(s[KeyOf(c)], c.condType, R(c))
  {
    var k := s[KeyOf(c)];
    if k.Known? {
      LenientMatchesAlike(c.rangeStr, k.value);
    }
  }

  /** A warning is reported on a line exactly for the conditions that always pass there. */
  lemma LineDiagsIff(s: States, line: string, i: nat, env: Env)
    requires !Skipped(Trim(line))
    ensures var t := Trim(line); var m := env.classify(t);
            var s1 := Commands(Stored(s, m), t, m);
            forall d :: d in LineStep(s, line, i, env).diags <==>
              exists c :: c in m.conditions && CondPasses(s1, c) && d == DiagAt(line, i, c)
  {
    var t := Trim(line);
    var m := env.classify(t);
    var s1 := Commands(Stored(s, m), t, m);
    DiagsMembers(line, i, PassingConds(s1, m.conditions));
  }

  /** A line is listed as always returning exactly when its own step, in the scores the pass has reached, says so. */
  lemma {:induction false} RunReturnsIff(s: States, lines: seq<string>, i: nat, j: nat, env: Env)
    requires i <= j < |lines|
    ensures j in Run(s, lines, i, env).alwaysReturns <==> LineStep(StatesAt(s, lines, i, j, env), lines[j], j, env).alwaysReturns
    decreases j - i
  {
    var st := LineStep(s, lines[i], i, env);
    RunMarks(s, lines, i, env, j);
    if i < j {
      RunReturnsIff(st.states, lines, i + 1, j, env);
      StatesAtShift(s, lines, i, j, env);
    }
  }

  /** The pass lists line `i` when its step says so, then what the rest of the pass lists. */
  lemma RunMarks(s: States, lines: seq<string>, i: nat, env: Env, x: nat)
    requires i < |lines|
    ensures var st := LineStep(s, lines[i], i, env);
            x in Run(s, lines, i, env).alwaysReturns <==>
              x in Run(st.states, lines, i + 1, env).alwaysReturns || (x == i && st.alwaysReturns)
  {
  }

  /**
   * So a line is listed exactly when it is no blank or comment line, has
   * the returning shape, and all its conditions always pass in the scores
   * reached after its own inline commands.
   */
  lemma RunReturnsWhen(s: States, lines: seq<string>, i: nat, j: nat, env: Env)
    requires i <= j < |lines|
    ensures var t := Trim(lines[j]); var m := env.classify(t);
            j in Run(s, lines, i, env).alwaysReturns <==>
              !Skipped(t) && ReturnShape(t, m) && AllPass(Commands(Stored(StatesAt(s, lines, i, j, env), m), t, m), m.conditions)
  {
    RunReturnsIff(s, lines, i, j, env);
  }

  /** Line `j`'s step, in the scores the pass from `i` has reached there, warns `d`. */
  predicate StepWarns(s: States, lines: seq<string>, i: nat, j: nat, env: Env, d: Diag)
    requires i <= j < |lines|
  {
    d in LineStep(StatesAt(s, lines, i, j, env), lines[j], j, env).diags
  }

  /** A pass from `i` reaches a later line in the scores of the pass from `i + 1` after line `i`. */
  lemma StatesAtShift(s: States, lines: seq<string>, i: nat, j: nat, env: Env)
    requires i < j <= |lines|
    ensures StatesAt(s, lines, i, j, env) == StatesAt(LineStep(s, lines[i], i, env).states, lines, i + 1, j, env)
  {
  }

  /** The pass warns what the first line warns, then what the rest of the pass warns. */
  lemma RunDiagsCons(s: States, lines: seq<string>, i: nat, env: Env)
    requires i < |lines|
    ensures var st := LineStep(s, lines[i], i, env);
            Run(s, lines, i, env).diags == st.diags + Run(st.states, lines, i + 1, env).diags
  {
  }

  /** A warning of the pass is exactly a warning of some line's step, in the scores the pass has reached there. */
  lemma {:induction false} RunDiagsIff(s: States, lines: seq<string>, i: nat, env: Env, d: Diag)
    requires i <= |lines|
    ensures d in Run(s, lines, i, env).diags <==> exists j :: i <= j < |lines| && StepWarns(s, lines, i, j, env, d)
    decreases |lines| - i
  {
    if i < |lines| {
      var st := LineStep(s, lines[i], i, env);
      var rest := Run(st.states, lines, i + 1, env);
      RunDiagsIff(st.states, lines, i + 1, env, d);
      RunDiagsCons(s, lines, i, env);
      if d in st.diags {
        assert StepWarns(s, lines, i, i, env, d);
      } else if d in rest.diags {
        var j :| i + 1 <= j < |lines| && StepWarns(st.states, lines, i + 1, j, env, d);
        StatesAtShift(s, lines, i, j, env);
        assert StepWarns(s, lines, i, j, env, d);
      }
      if exists j :: i <= j < |lines| && StepWarns(s, lines, i, j, env, d) {
        var j :| i <= j < |lines| && StepWarns(s, lines, i, j, env, d);
        if j > i {
          StatesAtShift(s, lines, i, j, env);
          assert StepWarns(st.states, lines, i + 1, j, env, d);
        }
      }
    }
  }

  /** A return behind a condition that may fail is never reported as always returning. */
  lemma ReturnNeedsPassingConditions(s: States, line: string, i: nat, env: Env)
    requires var t := Trim(line); var m := env.classify(t);
             var s1 := Commands(Stored(s, m), t, m);
             !Skipped(t) && exists c :: c in m.conditions && !CondPasses(s1, c)
    ensures !LineStep(s, line, i, env).alwaysReturns
  {
  }

  /** A conditional callee, or a call that may not run, makes the keys it touches unknown and no others change. */
  lemma {:induction false} ConditionalCalleeOnlyForgets(s: States, cs: seq<FunctionIndex.ScoreChange>)
    ensures OnlyForgets(s, CalleeChanges(s, cs, true))
    ensures s.Keys <= CalleeChanges(s, cs, true).Keys
    decreases |cs|
  {
    if cs != [] {
      ConditionalCalleeOnlyForgets(CalleeChange(s, cs[0], true), cs[1..]);
    }
  }

  /** Adds and removes in a callee are not followed at the call site. */
  lemma {:induction false} CalleeAddsIgnored(s: States, cs: seq<FunctionIndex.ScoreChange>)
    requires forall j :: 0 <= j < |cs| ==> (cs[j].operation.OpAdd? || cs[j].operation.OpRemove?) && !cs[j].isConditional
    ensures CalleeChanges(s, cs, false) == s
    decreases |cs|
  {
    if cs != [] {
      CalleeAddsIgnored(s, cs[1..]);
    }
  }

  /** `if function` forgets the callee's keys and nothing else. */
  lemma {:induction false} ForgetChangesKeys(s: States, cs: seq<FunctionIndex.ScoreChange>, k: string)
    ensures var r := ForgetChanges(s, cs);
            && (k in r <==> k in s || exists j :: 0 <= j < |cs| && FunctionIndex.Key(cs[j].target, cs[j].objective) == k)
            && (k in r && r[k] != Unknown ==> k in s && r[k] == s[k])
    decreases |cs|
  {
    if cs != [] {
      var s1 := s[FunctionIndex.Key(cs[0].target, cs[0].objective) := Unknown];
      ForgetChangesKeys(s1, cs[1..], k);
      if k in ForgetChanges(s, cs) && !(k in s) && FunctionIndex.Key(cs[0].target, cs[0].objective) != k {
        var j :| 0 <= j < |cs[1..]| && FunctionIndex.Key(cs[1..][j].target, cs[1..][j].objective) == k;
        assert cs[j + 1] == cs[1..][j];
      }
      if exists j :: 0 <= j < |cs| && FunctionIndex.Key(cs[j].target, cs[j].objective) == k {
        var j :| 0 <= j < |cs| && FunctionIndex.Key(cs[j].target, cs[j].objective) == k;
        if j > 0 {
          assert cs[1..][j - 1] == cs[j];
        }
      }
    }
  }
}
