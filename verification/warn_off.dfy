/**
 * `# warn-off` directives: a comment `# warn-off rule…` disables rules
 * for the next line, and `# warn-off-file rule…` comments in the header
 * of a file disable them for the whole file. No rule list, or the word
 * `all`, means every rule.
 */
module WarnOff {
  import opened Wrappers
  import opened Text
  import opened Scans

  /** `ALL_RULE_IDS`. */
  const AllRuleIds: set<string> := {
    "always-pass-condition", "execute-as-if-entity-s-convert", "execute-as-if-entity-s-merge",
    "execute-as-s-redundant", "execute-duplicate", "execute-group", "execute-run-redundant",
    "execute-run-redundant-run-execute", "execute-unnecessary", "infinite-recursion",
    "nbt-items-use-if-items", "return-run-duplicate", "scoreboard-fake-player-missing-hash",
    "target-selector-no-dimension", "target-selector-no-type", "target-selector-type-order",
    "unreachable-code", "unreachable-condition"
  }

  /**
   * `^#\s*<word>(?:\s+(.*))?$` with the `i` flag, for a lower-case `word`:
   * `None` when the line does not match, else the capture of the group,
   * which is `None` when the group took no part. The greedy `\s+` leaves
   * the capture at the first non-space, and `.*$` admits no line
   * terminator in it.
   */
  function Directive(line: string, word: string): (r: Option<Option<string>>)
    ensures r.Some? ==> |line| > 0 && line[0] == '#'
  {
    if line == [] || line[0] != '#' then None
    else
      var p := SpaceEnd(line, 1);
      if p + |word| > |line| || Lower(line[p..p + |word|]) != word then None
      else
        var q := p + |word|;
        if q == |line| then Some(None)
        else if !IsSpace(line[q]) then None
        else
          var w := SpaceEnd(line, q);
          if NoTerminatorFrom(line, w) then Some(Some(line[w..])) else None
  }

  /** The set the loop over the items builds: `all` adds every rule, other non-empty items themselves. */
  function RulesOf(items: seq<string>): (r: set<string>)
    ensures forall x :: x in r <==> ("all" in items && x in AllRuleIds) || (x in items && x != "all" && x != "")
  {
    if items == [] then {}
    else
      var rest := RulesOf(items[1..]);
      assert forall x :: x in items <==> x == items[0] || x in items[1..];
      (if items[0] == "all" then AllRuleIds else if items[0] != "" then {items[0]} else {}) + rest
  }

  /** The whitespace-separated items, trimmed and lower-cased. */
  function Items(content: string): (r: seq<string>)
    ensures |r| == |SplitSpaces(content)|
  {
    var parts := SplitSpaces(content);
    seq(|parts|, i requires 0 <= i < |parts| => Lower(Trim(parts[i])))
  }

  /** `parseRuleList`: every rule for an absent or blank list, else the rules the items name. */
  function ParseRuleList(content: Option<string>): (r: set<string>)
    ensures content.None? || Trim(content.value) == [] ==> r == AllRuleIds
    ensures content.Some? && Trim(content.value) != [] ==>
              forall x :: x in r <==> ("all" in Items(content.value) && x in AllRuleIds) || (x in Items(content.value) && x != "all" && x != "")
  {
    if content.None? || Trim(content.value) == [] then AllRuleIds else RulesOf(Items(content.value))
  }

  /** `parseWarnOff`: the rules of a `# warn-off` line, or `None` for any other line. */
  function ParseWarnOff(line: string): (r: Option<set<string>>)
    ensures r.None? <==> Directive(line, "warn-off").None?
    ensures r.Some? ==> r.value == ParseRuleList(Directive(line, "warn-off").value)
  {
    match Directive(line, "warn-off")
    case None => None
    case Some(c) => Some(ParseRuleList(c))
  }

  /** A lower-cased character is `-` only when it was. */
  lemma LowerDash(c: char)
    requires LowerChar(c) == '-'
    ensures c == '-'
  {
  }

  /**
   * A directive written out: `# word rest` captures `rest`, and `# word`
   * alone matches with no capture.
   */
  lemma DirectiveWritten(word: string, rest: string)
    requires word != [] && !IsSpace(word[0]) && Lower(word) == word
    requires rest != [] && !IsSpace(rest[0]) && NoTerminatorFrom(rest, 0)
    ensures Directive("# " + word + " " + rest, word) == Some(Some(rest))
    ensures Directive("# " + word, word) == Some(None)
  {
    DirectiveWithList(word, rest);
    DirectiveBare(word);
  }

  /** The steps of the directive pattern, position by position. */
  lemma DirectiveSteps(line: string, word: string, p: nat, w: nat)
    requires |line| > 0 && line[0] == '#' && SpaceEnd(line, 1) == p
    requires p + |word| < |line| && Lower(line[p..p + |word|]) == word && IsSpace(line[p + |word|])
    requires SpaceEnd(line, p + |word|) == w && NoTerminatorFrom(line, w)
    ensures Directive(line, word) == Some(Some(line[w..]))
  {
  }

  lemma DirectiveWithList(word: string, rest: string)
    requires word != [] && !IsSpace(word[0]) && Lower(word) == word
    requires rest != [] && !IsSpace(rest[0]) && NoTerminatorFrom(rest, 0)
    ensures Directive("# " + word + " " + rest, word) == Some(Some(rest))
  {
    var n := |word|;
    var head := "# " + word;
    var line := head + (" " + rest);
    assert line == "# " + word + " " + rest;
    assert line[..2 + n] == head;
    assert line[..2] == head[..2] == "# ";
    assert line[2..2 + n] == head[2..] == word;
    assert line[2 + n..] == " " + rest;
    DirectiveSlices(line, word, rest);
  }

  /** A line made of `# `, the word, a space and the rule list. */
  lemma DirectiveSlices(line: string, word: string, rest: string)
    requires word != [] && !IsSpace(word[0]) && Lower(word) == word
    requires rest != [] && !IsSpace(rest[0]) && NoTerminatorFrom(rest, 0)
    requires |line| == 3 + |word| + |rest| && line[..2] == "# " && line[2..2 + |word|] == word
    requires line[2 + |word|..] == " " + rest
    ensures Directive(line, word) == Some(Some(rest))
  {
    var n := |word|;
    SliceChars(line, n, word, rest);
    NoTerminatorTail(line, 3 + n, rest);
    assert ListLayout(line, word, 2, 3 + n);
    ListLayoutDirective(line, word, 2, 3 + n);
  }

  lemma SliceChars(line: string, n: nat, word: string, rest: string)
    requires |word| == n > 0 && rest != [] && !IsSpace(word[0]) && !IsSpace(rest[0])
    requires |line| == 3 + n + |rest| && line[..2] == "# " && line[2..2 + n] == word
    requires line[2 + n..] == " " + rest
    ensures line[0] == '#' && IsSpace(line[1]) && !IsSpace(line[2])
    ensures IsSpace(line[2 + n]) && !IsSpace(line[3 + n]) && line[3 + n..] == rest
  {
    assert line[0] == line[..2][0] && line[1] == line[..2][1];
    assert line[2] == line[2..2 + n][0];
    var tail := line[2 + n..];
    assert line[2 + n] == tail[0] && line[3 + n] == tail[1];
    assert line[3 + n..] == tail[1..];
  }

  lemma NoTerminatorTail(line: string, j: nat, rest: string)
    requires j <= |line| && line[j..] == rest && NoTerminatorFrom(rest, 0)
    ensures NoTerminatorFrom(line, j)
  {
    forall k | j <= k < |line|
      ensures !IsLineTerminator(line[k])
    {
      assert line[k] == rest[k - j];
    }
  }

  lemma DirectiveBare(word: string)
    requires word != [] && !IsSpace(word[0]) && Lower(word) == word
    ensures Directive("# " + word, word) == Some(None)
  {
    var line := "# " + word;
    assert line[0] == '#' && line[1] == ' ' && line[2] == word[0];
    assert line[2..] == word;
    SpaceEndIs(line, 1, 2);
    DirectiveEnds(line, word, 2);
  }

  /** The pattern matches with no rule list when the word ends the line. */
  lemma DirectiveEnds(line: string, word: string, p: nat)
    requires |line| > 0 && line[0] == '#' && SpaceEnd(line, 1) == p
    requires p + |word| == |line| && Lower(line[p..]) == word
    ensures Directive(line, word) == Some(None)
  {
    assert line[p..p + |word|] == line[p..];
  }

  /** A `# warn-off-file` line is not a `# warn-off` line. */
  lemma FileLineIsNotLineDirective(line: string)
    requires Directive(line, "warn-off-file").Some?
    ensures ParseWarnOff(line).None?
  {
    var p := SpaceEnd(line, 1);
    var low := Lower(line[p..p + 13]);
    assert low == "warn-off-file";
    assert low[8] == '-';
    LowerDash(line[p + 8]);
    DirectiveRefused(line, "warn-off", p);
  }

  // ------------------------------------------------- the directive's layout

  /** `s[i..j]` is whitespace. */
  predicate Spaces(s: string, i: nat, j: nat) {
    i <= j <= |s| && forall k :: i <= k < j ==> IsSpace(s[k])
  }

  /** `#`, whitespace up to `p`, then the word in any case of its ASCII letters, ending the line. */
  predicate BareLayout(line: string, word: string, p: nat) {
    && |line| > 0 && line[0] == '#' && Spaces(line, 1, p)
    && p + |word| == |line| && Lower(line[p..]) == word
  }

  /**
   * `#`, whitespace up to `p`, the word, at least one whitespace character
   * up to `w`, and a rule list `line[w..]` holding no line terminator; the
   * list starts at the first non-space, where the greedy `\s+` leaves it.
   */
  predicate ListLayout(line: string, word: string, p: nat, w: nat) {
    && |line| > 0 && line[0] == '#' && Spaces(line, 1, p)
    && p + |word| < w && Spaces(line, p + |word|, w) && (w == |line| || !IsSpace(line[w]))
    && Lower(line[p..p + |word|]) == word && NoTerminatorFrom(line, w)
  }

  lemma LowerSpace(c: char)
    requires IsSpace(c)
    ensures LowerChar(c) == c
  {
  }

  /** The word cannot start inside the whitespace after `#`. */
  lemma WordStart(line: string, word: string, p: nat)
    requires word != [] && !IsSpace(word[0]) && p < |line| && p + |word| <= |line|
    requires Lower(line[p..p + |word|]) == word
    ensures !IsSpace(line[p])
  {
    assert LowerChar(line[p]) == word[0];
    if IsSpace(line[p]) {
      LowerSpace(line[p]);
    }
  }

  /** A directive without a rule list is exactly a bare layout. */
  lemma DirectiveBareIff(line: string, word: string)
    requires word != [] && !IsSpace(word[0])
    ensures Directive(line, word) == Some(None) <==> exists p: nat :: BareLayout(line, word, p)
  {
    if Directive(line, word) == Some(None) {
      var p := SpaceEnd(line, 1);
      assert line[p..p + |word|] == line[p..];
      assert BareLayout(line, word, p);
    }
    if p: nat :| BareLayout(line, word, p) {
      BareLayoutDirective(line, word, p);
    }
  }

  lemma BareLayoutDirective(line: string, word: string, p: nat)
    requires word != [] && !IsSpace(word[0]) && BareLayout(line, word, p)
    ensures Directive(line, word) == Some(None)
  {
    assert line[p..p + |word|] == line[p..];
    WordStart(line, word, p);
    SpaceEndIs(line, 1, p);
    DirectiveEnds(line, word, p);
  }

  /** The layout a directive with a rule list was read from. */
  lemma DirectiveListLayout(line: string, word: string)
    requires word != [] && Directive(line, word).Some? && Directive(line, word).value.Some?
    ensures var p := SpaceEnd(line, 1);
            p + |word| <= |line| &&
            var w := SpaceEnd(line, p + |word|);
            ListLayout(line, word, p, w) && Directive(line, word).value.value == line[w..]
  {
  }

  lemma ListLayoutDirective(line: string, word: string, p: nat, w: nat)
    requires word != [] && !IsSpace(word[0]) && ListLayout(line, word, p, w)
    ensures Directive(line, word) == Some(Some(line[w..]))
  {
    WordStart(line, word, p);
    SpaceEndIs(line, 1, p);
    SpaceEndIs(line, p + |word|, w);
    DirectiveSteps(line, word, p, w);
  }

  /** A directive capturing the rule list `c` is exactly a list layout whose list is `c`. */
  lemma DirectiveListIff(line: string, word: string, c: string)
    requires word != [] && !IsSpace(word[0])
    ensures Directive(line, word) == Some(Some(c)) <==> exists p: nat, w: nat :: ListLayout(line, word, p, w) && c == line[w..]
  {
    if Directive(line, word) == Some(Some(c)) {
      DirectiveListLayout(line, word);
    }
    if p: nat, w: nat :| ListLayout(line, word, p, w) && c == line[w..] {
      ListLayoutDirective(line, word, p, w);
    }
  }

  /**
   * `parseWarnOff` in terms of the layout: a bare `# warn-off` disables
   * every rule, one with a list disables the rules the list names, and any
   * other line is not a directive.
   */
  lemma ParseWarnOffLayout(line: string)
    ensures ParseWarnOff(line).Some? <==>
              (exists p: nat :: BareLayout(line, "warn-off", p)) || (exists p: nat, w: nat :: ListLayout(line, "warn-off", p, w))
    ensures forall p: nat :: BareLayout(line, "warn-off", p) ==> ParseWarnOff(line) == Some(AllRuleIds)
    ensures forall p: nat, w: nat :: ListLayout(line, "warn-off", p, w) ==> ParseWarnOff(line) == Some(ParseRuleList(Some(line[w..])))
  {
    var word := "warn-off";
    forall p: nat | BareLayout(line, word, p)
      ensures Directive(line, word) == Some(None)
    {
      BareLayoutDirective(line, word, p);
    }
    forall p: nat, w: nat | ListLayout(line, word, p, w)
      ensures Directive(line, word) == Some(Some(line[w..]))
    {
      ListLayoutDirective(line, word, p, w);
    }
    match Directive(line, word)
    case None =>
    case Some(None) =>
      DirectiveBareIff(line, word);
    case Some(Some(c)) =>
      DirectiveListLayout(line, word);
  }

  /** The pattern fails when the word is followed by a character other than a space. */
  lemma DirectiveRefused(line: string, word: string, p: nat)
    requires |line| > 0 && line[0] == '#' && SpaceEnd(line, 1) == p
    requires p + |word| < |line| && !IsSpace(line[p + |word|])
    ensures Directive(line, word).None?
  {
  }

  // ------------------------------------------------------------ file header

  /** A blank line or a comment, once trimmed. */
  predicate IsHeaderLine(line: string) {
    var t := Trim(line);
    t == [] || StartsWith(t, "#")
  }

  /** The rules a `# warn-off-file` line names, or `None` for any other line. */
  function FileRules(line: string): (r: Option<set<string>>)
    ensures r.Some? ==> IsHeaderLine(line)
  {
    var t := Trim(line);
    match Directive(t, "warn-off-file")
    case None => None
    case Some(c) =>
      assert t[..1] == [t[0]];
      Some(ParseRuleList(c))
  }

  /** What the header loop does with one line. */
  datatype HeaderStep = Skip | Stop | Add(rules: set<string>)

  /**
   * A blank line or other comment is passed over, a `# warn-off-file`
   * line adds its rules, and any other line ends the header.
   */
  function StepOf(line: string): HeaderStep {
    var t := Trim(line);
    if t == [] || (StartsWith(t, "#") && Directive(t, "warn-off-file").None?) then Skip
    else if !StartsWith(t, "#") then Stop
    else Add(ParseRuleList(Directive(t, "warn-off-file").value))
  }

  /** The loop stops exactly at code lines and adds exactly the directives' rules. */
  lemma StepMeaning(line: string)
    ensures StepOf(line).Stop? <==> !IsHeaderLine(line)
    ensures StepOf(line).Add? <==> FileRules(line).Some?
    ensures StepOf(line).Add? ==> StepOf(line).rules == FileRules(line).value
  {
  }

  /** The loop of `parseWarnOffFile` from step `i`: the union of the added rules up to the first stop. */
  function Collect(steps: seq<HeaderStep>, i: nat): set<string>
    decreases |steps| - i
  {
    if i >= |steps| then {}
    else
      var rest := Collect(steps, i + 1);
      match steps[i]
      case Skip => rest
      case Stop => {}
      case Add(s) => s + rest
  }

  /** The step of every line, in order. */
  function Steps(lines: seq<string>): (r: seq<HeaderStep>)
    ensures |r| == |lines| && forall k :: 0 <= k < |lines| ==> r[k] == StepOf(lines[k])
  {
    seq(|lines|, k requires 0 <= k < |lines| => StepOf(lines[k]))
  }

  /** `parseWarnOffFile`. */
  function ParseWarnOffFile(lines: seq<string>): set<string> {
    Collect(Steps(lines), 0)
  }

  /** Every rule the loop collects is added by some step. */
  lemma {:induction false} FromAdds(steps: seq<HeaderStep>, i: nat, x: string)
    requires x in Collect(steps, i)
    ensures exists j :: i <= j < |steps| && steps[j].Add? && x in steps[j].rules
    decreases |steps| - i
  {
    if !(steps[i].Add? && x in steps[i].rules) {
      FromAdds(steps, i + 1, x);
    }
  }

  /** `parseWarnOffFile` collects only rules that `# warn-off-file` lines name. */
  lemma FileRulesNamed(lines: seq<string>, x: string)
    requires x in ParseWarnOffFile(lines)
    ensures exists j :: 0 <= j < |lines| && FileRules(lines[j]).Some? && x in FileRules(lines[j]).value
  {
    var steps := Steps(lines);
    FromAdds(steps, 0, x);
    var j :| 0 <= j < |steps| && steps[j].Add? && x in steps[j].rules;
    StepMeaning(lines[j]);
  }

  /** An added step before any stop contributes all its rules. */
  lemma {:induction false} AddsCount(steps: seq<HeaderStep>, i: nat, j: nat)
    requires i <= j < |steps| && steps[j].Add?
    requires forall k :: i <= k < j ==> !steps[k].Stop?
    ensures steps[j].rules <= Collect(steps, i)
    decreases j - i
  {
    if i < j {
      AddsCount(steps, i + 1, j);
    }
  }

  /** Every `# warn-off-file` line before the first code line contributes all its rules. */
  lemma HeaderDirectiveCounts(lines: seq<string>, j: nat)
    requires j < |lines| && FileRules(lines[j]).Some?
    requires forall k :: 0 <= k < j ==> IsHeaderLine(lines[k])
    ensures FileRules(lines[j]).value <= ParseWarnOffFile(lines)
  {
    var steps := Steps(lines);
    forall k | 0 <= k < j
      ensures !steps[k].Stop?
    {
      StepMeaning(lines[k]);
    }
    StepMeaning(lines[j]);
    AddsCount(steps, 0, j);
  }

  /** The loop reads no step from the first stop on. */
  lemma {:induction false} StopsFrom(steps: seq<HeaderStep>, i: nat, k: nat)
    requires i <= k < |steps| && steps[k].Stop?
    ensures Collect(steps, i) == Collect(steps[..k], i)
    decreases k - i
  {
    if i < k {
      StopsFrom(steps, i + 1, k);
      assert steps[..k][i] == steps[i];
    }
  }

  /** Nothing from a code line on is read: a file is as its part before that line. */
  lemma StopsAtCode(lines: seq<string>, k: nat)
    requires k < |lines| && !IsHeaderLine(lines[k])
    ensures ParseWarnOffFile(lines) == ParseWarnOffFile(lines[..k])
  {
    StepMeaning(lines[k]);
    StopsFrom(Steps(lines), 0, k);
    assert Steps(lines)[..k] == Steps(lines[..k]);
  }

  // ------------------------------------------------------------ one line

  /** The nearest line before `i` that is not blank, going upwards. */
  function NearestAbove(lines: seq<string>, i: nat): (r: Option<nat>)
    requires i <= |lines|
    ensures r.Some? ==> r.value < i && Trim(lines[r.value]) != [] && forall k :: r.value < k < i ==> Trim(lines[k]) == []
    ensures r.None? ==> forall k :: 0 <= k < i ==> Trim(lines[k]) == []
  {
    if i == 0 then None
    else if Trim(lines[i - 1]) != [] then Some(i - 1)
    else NearestAbove(lines, i - 1)
  }

  /** The rules a line above adds: those of a `# warn-off` comment, else none. */
  function LineRules(line: string): set<string> {
    var t := Trim(line);
    if !StartsWith(t, "#") then {}
    else
      match ParseWarnOff(t)
      case None => {}
      case Some(s) => s
  }

  /**
   * `getDisabledRulesForLine`: the file's rules, and those of a
   * `# warn-off` comment when it is the nearest non-blank line above.
   */
  function GetDisabledRulesForLine(lines: seq<string>, lineIndex: nat, fileRules: set<string>): (r: set<string>)
    requires lineIndex <= |lines|
    ensures fileRules <= r
    ensures NearestAbove(lines, lineIndex).None? ==> r == fileRules
    ensures NearestAbove(lines, lineIndex).Some? ==> r == fileRules + LineRules(lines[NearestAbove(lines, lineIndex).value])
  {
    match NearestAbove(lines, lineIndex)
    case None => fileRules
    case Some(n) => fileRules + LineRules(lines[n])
  }

  /** Only the nearest non-blank line above matters: lines further up can be anything. */
  lemma {:induction false} OnlyNearestMatters(a: seq<string>, b: seq<string>, lineIndex: nat, n: nat, fileRules: set<string>)
    requires lineIndex <= |a| && lineIndex <= |b| && n < lineIndex
    requires forall k :: n <= k < lineIndex ==> a[k] == b[k]
    requires Trim(a[n]) != [] && forall k :: n < k < lineIndex ==> Trim(a[k]) == []
    ensures GetDisabledRulesForLine(a, lineIndex, fileRules) == GetDisabledRulesForLine(b, lineIndex, fileRules)
  {
    NearestIs(a, lineIndex, n);
    NearestIs(b, lineIndex, n);
  }

  lemma {:induction false} NearestIs(lines: seq<string>, i: nat, n: nat)
    requires n < i <= |lines| && Trim(lines[n]) != [] && forall k :: n < k < i ==> Trim(lines[k]) == []
    ensures NearestAbove(lines, i) == Some(n)
    decreases i
  {
    if i - 1 > n {
      NearestIs(lines, i - 1, n);
    }
  }

  /** `isRuleDisabled`: the id, lower-cased, is among the rules. */
  function IsRuleDisabled(ruleId: string, rules: set<string>): (b: bool)
    ensures b <==> Lower(ruleId) in rules
  {
    Lower(ruleId) in rules
  }

  lemma LowerTwice(s: string)
    ensures Lower(Lower(s)) == Lower(s)
  {
    assert forall i :: 0 <= i < |s| ==> Lower(Lower(s))[i] == Lower(s)[i];
  }

  /** The query ignores the case of the id. */
  lemma DisabledIgnoresCase(ruleId: string, rules: set<string>)
    ensures IsRuleDisabled(ruleId, rules) == IsRuleDisabled(Lower(ruleId), rules)
  {
    LowerTwice(ruleId);
  }
}
