/**
 * Go-to-definition on the `if` / `unless` keyword of a score condition
 * that is decided (always or never passes): the location of the line that
 * gave the score its deciding state.
 */
module ConditionDefinition {
  import opened Wrappers
  import opened Text
  import opened Patterns
  import FunctionIndex
  import opened ScoreLattice
  import opened ScorePass

  /** A tracked score with the line that last set it (-1 when inherited) and that line's file. */
  datatype DefState = DefState(kind: Kind, line: int, file: Option<string>)

  type DefStates = map<string, DefState>

  /** A definition target: a file by path, or the document the request came from. */
  datatype Where = FileAt(path: string) | ThisDocument

  datatype Location = Location(where: Where, line: nat)

  /** The states inherited from the callers, each on line -1 with no file. */
  function InheritedDefs(docPath: string, env: Env): (r: DefStates)
    ensures forall k :: k in r ==> r[k].line == -1 && r[k].file.None? && !r[k].kind.Reset?
  {
    if env.initialized then
      match FunctionIndex.GetFunctionInfoByFile(env.idx, docPath)
      case None => map[]
      case Some(info) =>
        var seed := FromConsensus(FunctionIndex.ConsensusScoreStates(env.idx, info.fullPath));
        map k | k in seed :: DefState(seed[k], -1, None)
    else map[]
  }

  function ChangeKey(c: FunctionIndex.ScoreChange): string {
    FunctionIndex.Key(c.target, c.objective)
  }

  /** The change at `j` is the last one of `cs` on its key. */
  predicate LastOnKey(cs: seq<FunctionIndex.ScoreChange>, j: nat)
    requires j < |cs|
  {
    forall i :: j < i < |cs| ==> ChangeKey(cs[i]) != ChangeKey(cs[j])
  }

  /**
   * Every key a callee's changes mention becomes unknown, pointing at the
   * line of its last change in the callee's file; every other key keeps
   * its state.
   */
  function CalleeDefs(s: DefStates, cs: seq<FunctionIndex.ScoreChange>, file: string): (r: DefStates)
    ensures r.Keys == s.Keys + set c | c in cs :: ChangeKey(c)
    ensures forall k :: k in s && (forall c :: c in cs ==> ChangeKey(c) != k) ==> r[k] == s[k]
    ensures forall j :: 0 <= j < |cs| && LastOnKey(cs, j) ==> r[ChangeKey(cs[j])] == DefState(Unknown, cs[j].line, Some(file))
    ensures forall c :: c in cs ==> r[ChangeKey(c)].kind == Unknown && r[ChangeKey(c)].file == Some(file)
    decreases |cs|
  {
    if cs == [] then s
    else
      var c := cs[0];
      var s1 := s[ChangeKey(c) := DefState(Unknown, c.line, Some(file))];
      var r := CalleeDefs(s1, cs[1..], file);
      CalleeKeep(s, s1, cs, file, r);
      CalleeLast(s1, cs, file, r);
      CalleeEach(s1, cs, file, r);
      r
  }

  lemma CalleeKeep(s: DefStates, s1: DefStates, cs: seq<FunctionIndex.ScoreChange>, file: string, r: DefStates)
    requires cs != [] && s1 == s[ChangeKey(cs[0]) := DefState(Unknown, cs[0].line, Some(file))]
    requires r.Keys == s1.Keys + set c | c in cs[1..] :: ChangeKey(c)
    requires forall k :: k in s1 && (forall c :: c in cs[1..] ==> ChangeKey(c) != k) ==> r[k] == s1[k]
    ensures r.Keys == s.Keys + set c | c in cs :: ChangeKey(c)
    ensures forall k :: k in s && (forall c :: c in cs ==> ChangeKey(c) != k) ==> r[k] == s[k]
  {
    assert forall c :: c in cs <==> c == cs[0] || c in cs[1..];
  }

  lemma CalleeLast(s1: DefStates, cs: seq<FunctionIndex.ScoreChange>, file: string, r: DefStates)
    requires cs != [] && ChangeKey(cs[0]) in s1 && s1[ChangeKey(cs[0])] == DefState(Unknown, cs[0].line, Some(file))
    requires r.Keys == s1.Keys + set c | c in cs[1..] :: ChangeKey(c)
    requires forall k :: k in s1 && (forall c :: c in cs[1..] ==> ChangeKey(c) != k) ==> r[k] == s1[k]
    requires forall j :: 0 <= j < |cs[1..]| && LastOnKey(cs[1..], j) ==> r[ChangeKey(cs[1..][j])] == DefState(Unknown, cs[1..][j].line, Some(file))
    ensures forall j :: 0 <= j < |cs| && LastOnKey(cs, j) ==> r[ChangeKey(cs[j])] == DefState(Unknown, cs[j].line, Some(file))
  {
    forall j | 0 <= j < |cs| && LastOnKey(cs, j)
      ensures r[ChangeKey(cs[j])] == DefState(Unknown, cs[j].line, Some(file))
    {
      if j == 0 {
        forall c | c in cs[1..] ensures ChangeKey(c) != ChangeKey(cs[0]) {
          var i :| 0 <= i < |cs[1..]| && cs[1..][i] == c;
          assert cs[i + 1] == c;
        }
      } else {
        assert cs[1..][j - 1] == cs[j];
        assert LastOnKey(cs[1..], j - 1);
      }
    }
  }

  lemma CalleeEach(s1: DefStates, cs: seq<FunctionIndex.ScoreChange>, file: string, r: DefStates)
    requires cs != [] && ChangeKey(cs[0]) in s1 && s1[ChangeKey(cs[0])] == DefState(Unknown, cs[0].line, Some(file))
    requires r.Keys == s1.Keys + set c | c in cs[1..] :: ChangeKey(c)
    requires forall k :: k in s1 && (forall c :: c in cs[1..] ==> ChangeKey(c) != k) ==> r[k] == s1[k]
    requires forall c :: c in cs[1..] ==> r[ChangeKey(c)].kind == Unknown && r[ChangeKey(c)].file == Some(file)
    ensures forall c :: c in cs ==> r[ChangeKey(c)].kind == Unknown && r[ChangeKey(c)].file == Some(file)
  {
    forall c | c in cs ensures r[ChangeKey(c)].kind == Unknown && r[ChangeKey(c)].file == Some(file) {
      if c !in cs[1..] {
        assert c == cs[0];
        if d :| d in cs[1..] && ChangeKey(d) == ChangeKey(c) {
        }
      }
    }
  }

  function Here(docPath: string, i: nat, k: Kind): DefState {
    DefState(k, i, Some(docPath))
  }

  /** One line of `collectScoreStates`; here the scoreboard regexes also accept `$execute`. */
  function DefLine(s: DefStates, line: string, i: nat, docPath: string, env: Env): (r: DefStates)
    ensures s.Keys <= r.Keys
    ensures forall k :: k in r ==>
              (k in s && r[k] == s[k]) || r[k].kind.Unknown? || (r[k].line == i && r[k].file == Some(docPath))
  {
    var trimmed := Trim(line);
    if Skipped(trimmed) then s
    else
      var m := env.classify(trimmed);
      var cond := StartsWith(trimmed, "execute");
      var s1 := if m.store.Some? then s[FunctionIndex.Key(m.store.value.target, m.store.value.objective) := Here(docPath, i, Unknown)] else s;
      if m.setCmd.Some? then
        var c := m.setCmd.value;
        if Trackable(c.target) then s1[FunctionIndex.Key(c.target, c.objective) := Here(docPath, i, SetKind(cond, c.value))] else s1
      else if m.addCmd.Some? then
        var c := m.addCmd.value;
        var key := FunctionIndex.Key(c.target, c.objective);
        var prior := if key in s1 then Some(s1[key].kind) else None;
        if Trackable(c.target) then s1[key := Here(docPath, i, AddKind(prior, cond, if c.isAdd then c.amount else -c.amount))] else s1
      else if m.resetCmd.Some? then
        var c := m.resetCmd.value;
        if !Trackable(c.target) then s1
        else if c.objective.Some? then s1[FunctionIndex.Key(c.target, c.objective.value) := Here(docPath, i, ResetKind(cond))]
        else MarkTarget(s1, c.target, Here(docPath, i, ResetKind(cond)))
      else if m.operationCmd.Some? then
        var c := m.operationCmd.value;
        if Trackable(c.target) then s1[FunctionIndex.Key(c.target, c.objective) := Here(docPath, i, Unknown)] else s1
      else if m.runFunction.Some? && env.initialized then
        match FunctionIndex.GetFunctionInfo(env.idx, m.runFunction.value)
        case None => s1
        case Some(info) => CalleeDefs(s1, info.scoreChanges, info.filePath)
      else s1
  }

  /** The lines `i` up to (not including) `upTo`. */
  function DefLines(s: DefStates, lines: seq<string>, i: nat, upTo: nat, docPath: string, env: Env): DefStates
    requires i <= |lines|
    decreases |lines| - i
  {
    if i >= upTo || i == |lines| then s
    else DefLines(DefLine(s, lines[i], i, docPath, env), lines, i + 1, upTo, docPath, env)
  }

  /** `collectScoreStates`: the states before `currentLine`. */
  function CollectDefs(text: string, docPath: string, currentLine: nat, env: Env): DefStates {
    DefLines(InheritedDefs(docPath, env), SplitLines(text), 0, currentLine, docPath, env)
  }

  /** The condition is decided: unreachable or always true in the state. */
  predicate Decisive(d: DefState, c: ScoreCondition) {
    IsUnreachable(d.kind, c.condType, R(c)) || IsAlwaysTrue(d.kind, c.condType, R(c))
  }

  function CondName(t: CondType): string {
    if t == If then "if" else "unless"
  }

  /** The cursor is on the keyword: from `line.indexOf(keyword, line.indexOf(match))` to its end, both ends included. */
  predicate OnKeyword(line: string, c: ScoreCondition, ch: nat) {
    var start := IndexOf(line, c.text);
    var at := IndexOfFrom(line, CondName(c.condType), if start < 0 then 0 else start);
    at <= ch <= at + |CondName(c.condType)|
  }

  /** The location a decided state points to; None for an inherited state. */
  function Target(d: DefState): (r: Option<Location>)
    ensures r.Some? <==> d.line >= 0
    ensures r.Some? ==> r.value.line == d.line
  {
    if d.line < 0 then None
    else if d.file.Some? && d.file.value != "" then Some(Location(FileAt(d.file.value), d.line))
    else Some(Location(ThisDocument, d.line))
  }

  /** The condition answers a request at column `ch`: under the cursor, tracked, decided, and set on a line. */
  predicate Answers(line: string, ch: nat, states: DefStates, c: ScoreCondition) {
    OnKeyword(line, c, ch) && KeyOf(c) in states && Decisive(states[KeyOf(c)], c) && states[KeyOf(c)].line >= 0
  }

  /**
   * The first condition under the cursor whose state decides it and has a
   * line gives the location; there is none exactly when no condition
   * answers.
   */
  function Scan(conds: seq<ScoreCondition>, line: string, ch: nat, states: DefStates): (r: Option<Location>)
    ensures r.Some? <==> exists c :: c in conds && Answers(line, ch, states, c)
    ensures r.Some? ==> exists j :: 0 <= j < |conds| && Answers(line, ch, states, conds[j])
                                    && r == Target(states[KeyOf(conds[j])])
                                    && forall i :: 0 <= i < j ==> !Answers(line, ch, states, conds[i])
  {
    if conds == [] then None
    else
      var c := conds[0];
      var hit :=
        if OnKeyword(line, c, ch) && KeyOf(c) in states && Decisive(states[KeyOf(c)], c)
        then Target(states[KeyOf(c)]) else None;
      if hit.Some? then
        assert Answers(line, ch, states, conds[0]);
        hit
      else
        var r := Scan(conds[1..], line, ch, states);
        ScanShift(conds, line, ch, states, r);
        r
  }

  lemma ScanShift(conds: seq<ScoreCondition>, line: string, ch: nat, states: DefStates, r: Option<Location>)
    requires conds != [] && !Answers(line, ch, states, conds[0])
    requires r.Some? <==> exists c :: c in conds[1..] && Answers(line, ch, states, c)
    requires r.Some? ==> exists j :: 0 <= j < |conds[1..]| && Answers(line, ch, states, conds[1..][j])
                                    && r == Target(states[KeyOf(conds[1..][j])])
                                    && forall i :: 0 <= i < j ==> !Answers(line, ch, states, conds[1..][i])
    ensures r.Some? <==> exists c :: c in conds && Answers(line, ch, states, c)
    ensures r.Some? ==> exists j :: 0 <= j < |conds| && Answers(line, ch, states, conds[j])
                                    && r == Target(states[KeyOf(conds[j])])
                                    && forall i :: 0 <= i < j ==> !Answers(line, ch, states, conds[i])
  {
    if c :| c in conds && Answers(line, ch, states, c) {
      assert c in conds[1..];
    }
    if r.Some? {
      var j :| 0 <= j < |conds[1..]| && Answers(line, ch, states, conds[1..][j])
               && r == Target(states[KeyOf(conds[1..][j])])
               && forall i :: 0 <= i < j ==> !Answers(line, ch, states, conds[1..][i]);
      assert conds[1..][j] == conds[j + 1];
      forall i | 0 <= i < j + 1 ensures !Answers(line, ch, states, conds[i]) {
        if i > 0 { assert conds[i] == conds[1..][i - 1]; }
      }
    }
  }

  /** `provideDefinition` at line `posLine`, column `ch` of the document `text` with path `docPath`. */
  function ProvideDefinition(text: string, docPath: string, posLine: nat, ch: nat, env: Env): Option<Location>
    requires posLine < |SplitLines(text)|
  {
    var line := SplitLines(text)[posLine];
    var m := env.classify(Trim(line));
    Scan(m.conditions, line, ch, CollectDefs(text, docPath, posLine, env))
  }

  // --------------------------------------------------------------- lemmas

  /**
   * Where the states come from: a known or reset score is either inherited
   * (line -1, no file) or was set by a line of the document before `i`.
   */
  predicate Provenance(s: DefStates, i: nat, docPath: string) {
    forall k :: k in s && !s[k].kind.Unknown? ==>
      (s[k].line == -1 && s[k].file.None?) || (0 <= s[k].line < i && s[k].file == Some(docPath))
  }

  lemma ProvenanceStep(s: DefStates, line: string, i: nat, docPath: string, env: Env)
    requires Provenance(s, i, docPath)
    ensures Provenance(DefLine(s, line, i, docPath, env), i + 1, docPath)
  {
  }

  lemma {:induction false} ProvenanceRun(s: DefStates, lines: seq<string>, i: nat, upTo: nat, docPath: string, env: Env)
    requires i <= |lines| && i <= upTo && Provenance(s, i, docPath)
    ensures Provenance(DefLines(s, lines, i, upTo, docPath, env), upTo, docPath)
    decreases |lines| - i
  {
    if i >= upTo || i == |lines| {
      assert Provenance(s, upTo, docPath);
    } else {
      ProvenanceStep(s, lines[i], i, docPath, env);
      ProvenanceRun(DefLine(s, lines[i], i, docPath, env), lines, i + 1, upTo, docPath, env);
    }
  }

  /**
   * A definition always lies in the requesting document, on a line above
   * the cursor: states taken over from a callee are unknown and never
   * decide a condition, and inherited states have no line.
   */
  lemma DefinitionPrecedesCursor(text: string, docPath: string, posLine: nat, ch: nat, env: Env)
    requires posLine < |SplitLines(text)|
    ensures var r := ProvideDefinition(text, docPath, posLine, ch, env);
            r.Some? ==> r.value.line < posLine &&
                        r.value.where == (if docPath != "" then FileAt(docPath) else ThisDocument)
  {
    var states := CollectDefs(text, docPath, posLine, env);
    ProvenanceRun(InheritedDefs(docPath, env), SplitLines(text), 0, posLine, docPath, env);
    var line := SplitLines(text)[posLine];
    var conds := env.classify(Trim(line)).conditions;
    ScanDecisive(conds, line, ch, states, posLine, docPath);
  }

  lemma {:induction false} ScanDecisive(conds: seq<ScoreCondition>, line: string, ch: nat, states: DefStates, n: nat, docPath: string)
    requires Provenance(states, n, docPath)
    ensures var r := Scan(conds, line, ch, states);
            r.Some? ==> r.value.line < n && r.value.where == (if docPath != "" then FileAt(docPath) else ThisDocument)
    decreases |conds|
  {
    if conds != [] {
      var c := conds[0];
      if OnKeyword(line, c, ch) && KeyOf(c) in states && Decisive(states[KeyOf(c)], c) {
        DecidedIffTracked(states[KeyOf(c)].kind, c.condType, R(c));
      }
      ScanDecisive(conds[1..], line, ch, states, n, docPath);
    }
  }

  /** The first condition under the cursor, when decided by a state with a line, is the one answered. */
  lemma FirstConditionAnswers(conds: seq<ScoreCondition>, line: string, ch: nat, states: DefStates)
    requires conds != [] && OnKeyword(line, conds[0], ch)
    requires KeyOf(conds[0]) in states && Decisive(states[KeyOf(conds[0])], conds[0])
    requires states[KeyOf(conds[0])].line >= 0
    ensures Scan(conds, line, ch, states) == Target(states[KeyOf(conds[0])])
  {
  }

  /** Without any decided state no definition is offered. */
  lemma {:induction false} UndecidedGivesNothing(conds: seq<ScoreCondition>, line: string, ch: nat, states: DefStates)
    requires forall k :: k in states ==> states[k].kind.Unknown?
    ensures Scan(conds, line, ch, states).None?
    decreases |conds|
  {
    if conds != [] {
      UndecidedGivesNothing(conds[1..], line, ch, states);
    }
  }

  /** A condition is decided exactly when its score is known, or reset and tested with `if`. */
  lemma DecisiveIff(d: DefState, c: ScoreCondition)
    ensures Decisive(d, c) <==> d.kind.Known? || (d.kind.Reset? && c.condType == If)
  {
    DecidedIffTracked(d.kind, c.condType, R(c));
  }
}
