/**
 * What the command-line regexes of the score analyses extract from one
 * trimmed line. The regexes themselves are not re-implemented: a
 * `Classifier` maps a line to its `Matches`, and the analyses are
 * modelled on top of whatever it reports.
 */
module Patterns {
  import opened Wrappers
  import opened Text

  datatype CondType = If | Unless

  /**
   * One match of `\b(if|unless)\s+score\s+(\S+)\s+(\S+)\s+matches\s+(\S+)`;
   * `text` is the whole matched text.
   */
  datatype ScoreCondition = ScoreCondition(
    condType: CondType, target: string, objective: string, rangeStr: string, text: string)

  /** `scoreboard players set (\S+) (\S+) (-?\d+)`, the value already parsed. */
  datatype SetMatch = SetMatch(target: string, objective: string, value: int)

  /** `scoreboard players (add|remove) (\S+) (\S+) (-?\d+)`. */
  datatype AddMatch = AddMatch(isAdd: bool, target: string, objective: string, amount: int)

  /** `scoreboard players reset (\S+)(?:\s+(\S+))?`. */
  datatype ResetMatch = ResetMatch(target: string, objective: Option<string>)

  /** A target and objective pair: `store (result|success) score` and `scoreboard players operation`. */
  datatype TargetMatch = TargetMatch(target: string, objective: string)

  /** `\bfunction\s+([a-z0-9_.-]+:[a-z0-9_./-]+)` (case-insensitive); `text` is the whole match. */
  datatype FunctionRef = FunctionRef(name: string, text: string)

  /**
   * The outcome of every regex the score analyses apply to a trimmed line.
   * The four scoreboard commands and `runFunction` are the variants anchored
   * at `^(?:\$?execute\s+.*\s+run\s+)?`; `Plain` derives the variants
   * without `\$?`.
   */
  datatype Matches = Matches(
    store: Option<TargetMatch>,        // \bstore\s+(?:result|success)\s+score\s+(\S+)\s+(\S+)
    setCmd: Option<SetMatch>,
    addCmd: Option<AddMatch>,
    resetCmd: Option<ResetMatch>,
    operationCmd: Option<TargetMatch>,
    conditions: seq<ScoreCondition>,   // every match, left to right
    functionRef: Option<FunctionRef>,  // unanchored `function ns:path`
    runFunction: Option<string>,       // ^(?:\$?execute\s+.*\s+run\s+)?function\s+(ns:path)
    ifFunction: Option<string>,        // \b(if|unless)\s+function\s+(ns:path)
    hasIfUnless: bool,                 // \b(if|unless)\b
    hasOn: bool,                       // \bon\s
    hasRebind: bool,                   // \b(as|at|positioned\s+as|rotated\s+as|facing\s+entity)\s+@[aepnr]
    hasNonScoreIfUnless: bool,         // \b(if|unless)\s+(?!score\b)
    hasScoreIfUnless: bool,            // \b(if|unless)\s+score\b
    hasAs: bool,                       // (?<!positioned\s)\bas\s+@[aepnrs]
    hasRunReturn: bool,                // \srun\s+return\b
    ifUnlessCount: nat)                // number of matches of \b(if|unless)\s+\S+

  type Classifier = string -> Matches

  /**
   * The anchored regexes without `\$?` before `execute`: they agree with the
   * `\$?` variants except that they cannot match a line starting with `$`.
   */
  function Plain(trimmed: string, m: Matches): (p: Matches)
    ensures !StartsWith(trimmed, "$") ==> p == m
    ensures StartsWith(trimmed, "$") ==>
              p.setCmd.None? && p.addCmd.None? && p.resetCmd.None? && p.operationCmd.None? && p.runFunction.None?
  {
    if StartsWith(trimmed, "$")
    then m.(setCmd := None, addCmd := None, resetCmd := None, operationCmd := None, runFunction := None)
    else m
  }

  /** Blank lines and `#` comments are skipped by every pass. */
  predicate Skipped(trimmed: string) {
    trimmed == "" || StartsWith(trimmed, "#")
  }

  /** Trackable targets: selectors (`@…`) and the wildcard `*` are never tracked. */
  predicate Trackable(target: string) {
    !StartsWith(target, "@") && target != "*"
  }
}
