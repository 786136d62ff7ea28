/**
 * Fake players without `#`: in `scoreboard players <subcommand> <name> …`
 * a score holder that is neither a target selector nor starts with `#`
 * is a fake player the sidebar would show, and the rule warns about it.
 * `operation` has two score holders, the target and the source.
 */
module ScoreboardFakePlayer {
  import opened Wrappers
  import opened Text
  import opened Seqs
  import opened Tokens

  // ------------------------------------------------------------ the pattern

  /** `w` at `i` of `t`, ASCII letters compared without case (the regex `i` flag). */
  predicate WordAtI(t: string, i: nat, w: string) {
    i + |w| <= |t| && Lower(t[i..i + |w|]) == w
  }

  /** Alternative `w` of the subcommand group matches at `i`, and so does the `\s+` after it. */
  predicate Takes(t: string, i: nat, w: string) {
    WordAtI(t, i, w) && i + |w| < |t| && IsSpace(t[i + |w|])
  }

  /** The alternatives `add|remove|set|reset|get|list|operation`, in order. */
  const Subcommands: seq<string> := ["add", "remove", "set", "reset", "get", "list", "operation"]

  /**
   * The alternative that matches at `i` together with the whitespace
   * after it: the word up to the next whitespace, lower-cased, when it is
   * one of them. No alternative is a prefix of another, so at most one
   * can match and the order of the alternation does not matter.
   */
  function SubcommandAt(t: string, i: nat): (r: Option<string>)
    requires i <= |t|
    ensures r.Some? ==> r.value in Subcommands && Takes(t, i, r.value)
  {
    var k := FirstSpace(t, i);
    if k == -1 then None
    else
      var w := Lower(t[i..k]);
      if w in Subcommands then Some(w) else None
  }

  /** The pattern matched at one position: the lower-cased subcommand and where the match ends. */
  datatype PatternMatch = PatternMatch(command: string, end: nat)

  /**
   * `scoreboard\s+players\s+(…)\s+` anchored at `m`. The whitespace runs
   * are greedy and need not give anything back: each is followed by a
   * letter, and the last one ends the pattern.
   */
  function MatchAt(t: string, m: nat): (r: Option<PatternMatch>)
    ensures r.Some? ==> r.value.command in Subcommands && m < r.value.end <= |t|
    ensures r.Some? ==> IsSpace(t[r.value.end - 1]) && (r.value.end == |t| || !IsSpace(t[r.value.end]))
  {
    if !WordAtI(t, m, "scoreboard") then None
    else
      var a := SpaceEnd(t, m + 10);
      if a == m + 10 || !WordAtI(t, a, "players") then None
      else
        var b := SpaceEnd(t, a + 7);
        if b == a + 7 then None
        else
          match SubcommandAt(t, b)
          case None => None
          case Some(w) => Some(PatternMatch(w, SpaceEnd(t, b + |w|)))
  }

  /** `[i, j)` is a non-empty run of whitespace. */
  predicate Spaces(t: string, i: nat, j: nat)
    requires j <= |t|
  {
    i < j && forall k :: i <= k < j ==> IsSpace(t[k])
  }

  /** The pattern read declaratively: the words, the whitespace between them, and the subcommand `w`. */
  predicate PatternAt(t: string, m: nat, a: nat, b: nat, w: string) {
    && a <= |t| && b <= |t|
    && WordAtI(t, m, "scoreboard") && Spaces(t, m + 10, a)
    && WordAtI(t, a, "players") && Spaces(t, a + 7, b)
    && w in Subcommands && Takes(t, b, w)
  }

  /** A match found at `m` is the pattern read declaratively. */
  lemma MatchAtSound(t: string, m: nat)
    requires MatchAt(t, m).Some?
    ensures exists a, b :: PatternAt(t, m, a, b, MatchAt(t, m).value.command)
  {
    var a := SpaceEnd(t, m + 10);
    var b := SpaceEnd(t, a + 7);
    var w := SubcommandAt(t, b).value;
    assert MatchAt(t, m).value.command == w;
    assert Spaces(t, m + 10, a) && Spaces(t, a + 7, b);
    assert PatternAt(t, m, a, b, w);
  }

  /** A word read without case does not start with whitespace. */
  lemma WordNotSpace(t: string, i: nat, w: string)
    requires WordAtI(t, i, w) && |w| > 0 && !IsSpace(w[0])
    ensures !IsSpace(t[i])
  {
    assert Lower(t[i..i + |w|])[0] == LowerChar(t[i]);
  }

  /** The declarative reading fixes the positions: where it holds, the match is found there. */
  lemma MatchAtComplete(t: string, m: nat, a: nat, b: nat, w: string)
    requires PatternAt(t, m, a, b, w)
    ensures MatchAt(t, m).Some?
  {
    WordNotSpace(t, a, "players");
    SpaceEndIs(t, m + 10, a);
    assert !IsSpace(w[0]);
    WordNotSpace(t, b, w);
    SpaceEndIs(t, a + 7, b);
    SubcommandFound(t, b, w);
  }

  /** Whichever alternative matches, the group matches it. */
  lemma SubcommandFound(t: string, i: nat, w: string)
    requires w in Subcommands && Takes(t, i, w)
    ensures SubcommandAt(t, i) == Some(w)
  {
    SubcommandLetters(w);
    forall j | i <= j < i + |w|
      ensures !IsSpace(t[j])
    {
      assert Lower(t[i..i + |w|])[j - i] == LowerChar(t[j]);
      LetterNotSpace(t[j]);
    }
  }

  /** The alternatives are lower-case letters only. */
  lemma SubcommandLetters(w: string)
    requires w in Subcommands
    ensures forall j :: 0 <= j < |w| ==> 'a' <= w[j] <= 'z'
  {
  }

  lemma LetterNotSpace(c: char)
    requires 'a' <= LowerChar(c) <= 'z'
    ensures !IsSpace(c)
  {
  }
  /** A match at each start `0..|t|`. */
  function Anchored(t: string): (r: seq<Option<PatternMatch>>)
    ensures |r| == |t| + 1 && forall m :: 0 <= m <= |t| ==> r[m] == MatchAt(t, m)
  {
    seq(|t| + 1, m requires 0 <= m <= |t| => MatchAt(t, m))
  }

  /** A match and where it starts. */
  datatype Located = Located(at: nat, hit: PatternMatch)

  /** `SCOREBOARD_PLAYERS_PATTERN` on `t`, for `test` and `match` alike: the leftmost match. */
  function FindPattern(t: string): (r: Option<Located>)
    ensures r.Some? ==> r.value.at <= |t| && MatchAt(t, r.value.at) == Some(r.value.hit)
  {
    var ms := Anchored(t);
    match FirstSome(ms, 0)
    case None => None
    case Some(at) => Some(Located(at, ms[at].value))
  }

  /** The match found is the leftmost, and none is found only when the pattern matches nowhere. */
  lemma FindPatternLeftmost(t: string)
    ensures var r := FindPattern(t);
            && (r.Some? ==> forall m :: 0 <= m < r.value.at ==> MatchAt(t, m).None?)
            && (r.None? ==> forall m :: 0 <= m <= |t| ==> MatchAt(t, m).None?)
  {
    var ms := Anchored(t);
    var f := FirstSome(ms, 0);
    assert forall m :: 0 <= m <= |t| ==> ms[m] == MatchAt(t, m);
  }

  // ------------------------------------------------------------ score holders

  /** The letters of `isTargetSelector`, which leave out `@n`. */
  const WrittenLetters: set<char> := {'a', 'e', 'p', 'r', 's'}

  /** Every selector letter the other rules know: `@n` is a selector too. */
  const SelectorLetters: set<char> := {'a', 'e', 'p', 'n', 'r', 's'}

  /** `^@[letters](\[[^\]]*\])?$` on the trimmed name. */
  predicate IsSelectorOf(name: string, letters: set<char>) {
    var s := Trim(name);
    |s| >= 2 && s[0] == '@' && s[1] in letters && (|s| == 2 || BracketLen(s, 2) == |s| - 2)
  }

  /** A name the rule warns about: no selector, and no `#` in front. */
  predicate FakeWith(name: string, letters: set<char>) {
    !IsSelectorOf(name, letters) && !StartsWith(name, "#")
  }

  /** What the rule reads from a line: the subcommand, where its arguments begin, and the arguments split at whitespace. */
  datatype Command = Command(sub: string, argStart: nat, parts: seq<string>)

  /**
   * The trimmed line matched against the pattern; the arguments are the
   * trimmed rest after the match, split at whitespace. The first of them
   * stands in the line right where the match ends.
   */
  function ParseCommand(line: string): (r: Option<Command>)
    ensures r.None? <==> FindPattern(Trim(line)).None?
    ensures r.Some? ==> r.value.sub in Subcommands && |r.value.parts| >= 1
    ensures r.Some? ==> r.value.argStart == SpaceEnd(line, 0) + FindPattern(Trim(line)).value.hit.end
    ensures r.Some? ==> OccursAt(line, r.value.parts[0], r.value.argStart)
  {
    match FindPattern(Trim(line))
    case None => None
    case Some(loc) => Some(CommandAfter(line, loc.hit))
  }

  /** The command read after a match of the trimmed line: one that ends where its whitespace does. */
  function CommandAfter(line: string, hit: PatternMatch): (c: Command)
    requires hit.command in Subcommands && hit.end <= |Trim(line)|
    requires hit.end == |Trim(line)| || !IsSpace(Trim(line)[hit.end])
    ensures c.sub == hit.command && c.sub in Subcommands && |c.parts| >= 1
    ensures c.argStart == SpaceEnd(line, 0) + hit.end
    ensures OccursAt(line, c.parts[0], c.argStart)
  {
    var t := Trim(line);
    ArgumentsAt(line, hit.end);
    Command(hit.command, SpaceEnd(line, 0) + hit.end, SplitSpaces(Trim(t[hit.end..])))
  }

  /** The first argument after a match ending at `e` of the trimmed line stands at `e` past the line's leading whitespace. */
  lemma ArgumentsAt(line: string, e: nat)
    requires e <= |Trim(line)| && (e == |Trim(line)| || !IsSpace(Trim(line)[e]))
    ensures OccursAt(line, SplitSpaces(Trim(Trim(line)[e..]))[0], SpaceEnd(line, 0) + e)
  {
    var t := Trim(line);
    var a := SpaceEnd(line, 0);
    TrimAt(line);
    var x := t[e..];
    var after := Trim(x);
    var p := SplitSpaces(after)[0];
    SplitSpacesFirst(after);
    if e == |t| {
      assert x == [] && after == [];
    } else {
      assert SpaceEnd(x, 0) == 0;
      TrimAt(x);
      InfixOccurs(x, after, 0, p, 0);
      SuffixOccurs(t, e, p, 0);
      InfixOccurs(line, t, a, p, e);
    }
  }

  // ------------------------------------------------------------ the rule

  /** A warning over columns `[start, end)` of line `line`. */
  datatype FakePlayerDiag = FakePlayerDiag(line: nat, start: int, end: int)

  /** A warning over `name` standing at `start`. */
  function Over(lineIndex: nat, start: int, name: string): FakePlayerDiag {
    FakePlayerDiag(lineIndex, start, start + |name|)
  }

  /** Every warning covers a name of the line that the letters class as fake. */
  predicate Warns(line: string, lineIndex: nat, r: seq<FakePlayerDiag>, letters: set<char>) {
    forall d :: d in r ==> d.line == lineIndex && 0 <= d.start <= d.end <= |line| && FakeWith(line[d.start..d.end], letters)
  }

  /** A warning over `name` at `k` covers it. */
  lemma OverFound(line: string, lineIndex: nat, name: string, k: int, letters: set<char>)
    requires OccursAt(line, name, k) && FakeWith(name, letters)
    ensures Warns(line, lineIndex, [Over(lineIndex, k, name)], letters)
  {
  }

  /** A warning over `name` at `k` when it is fake and was found (`k` is not -1). */
  function WarnIfFake(lineIndex: nat, line: string, name: string, k: int, letters: set<char>): (r: seq<FakePlayerDiag>)
    requires k == -1 || OccursAt(line, name, k)
    ensures |r| <= 1 && Warns(line, lineIndex, r, letters)
    ensures r != [] <==> k != -1 && FakeWith(name, letters)
    ensures r != [] ==> r[0] == Over(lineIndex, k, name)
  {
    if k != -1 && FakeWith(name, letters) then
      OverFound(line, lineIndex, name, k, letters);
      [Over(lineIndex, k, name)]
    else []
  }

  lemma WarnsAppend(line: string, lineIndex: nat, a: seq<FakePlayerDiag>, b: seq<FakePlayerDiag>, letters: set<char>)
    requires Warns(line, lineIndex, a, letters) && Warns(line, lineIndex, b, letters)
    ensures Warns(line, lineIndex, a + b, letters)
  {
  }

  /**
   * The per-subcommand decisions of `checkScoreboardFakePlayer`, with the
   * target placed at `targetIndex`. For `list`, `get` and the other
   * subcommands, the first argument when it is fake; for `operation` with
   * two arguments or more, the target and, independently, the
   * second-to-last argument (the source), searched for after the target.
   */
  function Warnings(lineIndex: nat, line: string, c: Command, targetIndex: nat, letters: set<char>): (r: seq<FakePlayerDiag>)
    requires |c.parts| >= 1 && OccursAt(line, c.parts[0], targetIndex)
    ensures |r| <= 2 && Warns(line, lineIndex, r, letters)
    ensures forall d :: d in r ==> targetIndex <= d.start
    ensures c.sub != "operation" ==>
              && (r != [] <==> c.parts[0] != "" && FakeWith(c.parts[0], letters))
              && (r != [] ==> r == [Over(lineIndex, targetIndex, c.parts[0])])
    ensures c.sub == "operation" ==>
              && (|c.parts| < 2 ==> r == [])
              && (|c.parts| >= 2 && FakeWith(c.parts[0], letters) ==> r != [] && r[0] == Over(lineIndex, targetIndex, c.parts[0]))
              && (|c.parts| >= 2 && !FakeWith(c.parts[0], letters) ==> forall d :: d in r ==> targetIndex + |c.parts[0]| <= d.start)
              && (|c.parts| >= 2 && !FakeWith(c.parts[|c.parts| - 2], letters) ==> |r| <= 1)
    ensures c.sub == "operation" && |c.parts| >= 2 ==>
              var target := c.parts[0];
              var source := c.parts[|c.parts| - 2];
              var k := IndexOfFrom(line, source, targetIndex + |target|);
              && |r| == (if FakeWith(target, letters) then 1 else 0) + (if k != -1 && FakeWith(source, letters) then 1 else 0)
              && (k != -1 && FakeWith(source, letters) ==> r[|r| - 1] == Over(lineIndex, k, source))
  {
    var target := c.parts[0];
    var first := WarnIfFake(lineIndex, line, target, targetIndex, letters);
    if c.sub != "operation" then
      if target != "" then first else []
    else if |c.parts| < 2 then []
    else
      var source := c.parts[|c.parts| - 2];
      var second := WarnIfFake(lineIndex, line, source, IndexOfFrom(line, source, targetIndex + |target|), letters);
      WarnsAppend(line, lineIndex, first, second, letters);
      first + second
  }

  /**
   * The warnings of a command whose target stands at `targetIndex`, one
   * subcommand at a time: for all but `operation`, the target exactly when
   * it is fake; for `operation` with two arguments or more, the target
   * when it is fake, then the source when it is fake and found after the
   * target (from the start when the target was not placed); for a shorter
   * `operation`, nothing.
   */
  predicate Decided(lineIndex: nat, line: string, c: Command, targetIndex: int, letters: set<char>, r: seq<FakePlayerDiag>)
    requires |c.parts| >= 1
  {
    var target := c.parts[0];
    var first := if FakeWith(target, letters) then [Over(lineIndex, targetIndex, target)] else [];
    if c.sub != "operation" then
      r == if target != "" then first else []
    else if |c.parts| < 2 then r == []
    else
      var source := c.parts[|c.parts| - 2];
      var k := IndexOfFrom(line, source, if targetIndex >= 0 then targetIndex + |target| else 0);
      r == first + if k != -1 && FakeWith(source, letters) then [Over(lineIndex, k, source)] else []
  }

  /** The per-subcommand decisions are what `Warnings` computes. */
  lemma WarningsDecided(lineIndex: nat, line: string, c: Command, targetIndex: nat, letters: set<char>)
    requires |c.parts| >= 1 && OccursAt(line, c.parts[0], targetIndex)
    ensures Decided(lineIndex, line, c, targetIndex, letters, Warnings(lineIndex, line, c, targetIndex, letters))
  {
  }

  /**
   * `checkScoreboardFakePlayer` as written: the target is placed with
   * `line.indexOf(target)` over the whole line, and the selector class
   * leaves out `@n`. The target is always found, so the source's `: 0`
   * fallback never applies.
   */
  function CheckAsWritten(lineIndex: nat, line: string, enabled: bool): (r: seq<FakePlayerDiag>)
    ensures !enabled || ParseCommand(line).None? ==> r == []
    ensures |r| <= 2 && Warns(line, lineIndex, r, WrittenLetters)
    ensures enabled && ParseCommand(line).Some? ==> Decided(lineIndex, line, ParseCommand(line).value, IndexOf(line, ParseCommand(line).value.parts[0]), WrittenLetters, r)
  {
    if !enabled then []
    else
      match ParseCommand(line)
      case None => []
      case Some(c) =>
        IndexOfFound(line, c.parts[0], c.argStart);
        WarningsDecided(lineIndex, line, c, IndexOf(line, c.parts[0]), WrittenLetters);
        Warnings(lineIndex, line, c, IndexOf(line, c.parts[0]), WrittenLetters)
  }

  /**
   * The rule with the target placed where it stands, right after the
   * match, and `@n` counted as a selector: every warning lies among the
   * arguments.
   */
  function CheckScoreboardFakePlayer(lineIndex: nat, line: string, enabled: bool): (r: seq<FakePlayerDiag>)
    ensures !enabled || ParseCommand(line).None? ==> r == []
    ensures |r| <= 2 && Warns(line, lineIndex, r, SelectorLetters)
    ensures forall d :: d in r ==> ParseCommand(line).Some? && ParseCommand(line).value.argStart <= d.start
    ensures enabled && ParseCommand(line).Some? ==> Decided(lineIndex, line, ParseCommand(line).value, ParseCommand(line).value.argStart, SelectorLetters, r)
  {
    if !enabled then []
    else
      match ParseCommand(line)
      case None => []
      case Some(c) =>
        WarningsDecided(lineIndex, line, c, c.argStart, SelectorLetters);
        Warnings(lineIndex, line, c, c.argStart, SelectorLetters)
  }

  // ------------------------------------------------------------ the misplaced range

  /** The words before the holder in `scoreboard players add <name> obj 1`. */
  const AddPrefix: string := "scoreboard players add "

  /** A holder name: one non-empty word. */
  predicate PlainName(name: string) {
    name != [] && forall i :: 0 <= i < |name| ==> !IsSpace(name[i])
  }

  /** A line adding 1 to the score of `name` in objective `obj`. */
  function AddLine(name: string): string {
    AddPrefix + name + " obj 1"
  }

  /** `t` holds the lower-case word `w` at `i`. */
  lemma LowerWordAt(t: string, i: nat, w: string)
    requires i + |w| <= |t| && t[i..i + |w|] == w
    requires forall j :: 0 <= j < |w| ==> 'a' <= w[j] <= 'z'
    ensures WordAtI(t, i, w)
  {
    LowerUntouched(w);
  }

  lemma AddLineParts(name: string)
    ensures |AddLine(name)| == 23 + |name| + 6
    ensures forall k :: 0 <= k < 23 ==> AddLine(name)[k] == AddPrefix[k]
    ensures AddLine(name)[23..] == name + " obj 1"
  {
    assert AddLine(name) == AddPrefix + (name + " obj 1");
  }

  lemma AddLineScoreboard(name: string)
    ensures WordAtI(AddLine(name), 0, "scoreboard")
  {
    AddLineParts(name);
    assert AddLine(name)[0..10] == AddPrefix[0..10] == "scoreboard";
    LowerWordAt(AddLine(name), 0, "scoreboard");
  }

  lemma AddLinePlayers(name: string)
    ensures WordAtI(AddLine(name), 11, "players")
  {
    AddLineParts(name);
    assert AddLine(name)[11..18] == AddPrefix[11..18] == "players";
    LowerWordAt(AddLine(name), 11, "players");
  }

  lemma AddLineSpaces(name: string)
    requires PlainName(name)
    ensures SpaceEnd(AddLine(name), 10) == 11 && SpaceEnd(AddLine(name), 18) == 19 && SpaceEnd(AddLine(name), 22) == 23
  {
    var t := AddLine(name);
    AddLineParts(name);
    assert t[23] == name[0];
    SpaceEndIs(t, 10, 11);
    SpaceEndIs(t, 18, 19);
    SpaceEndIs(t, 22, 23);
  }

  lemma AddLineVerb(name: string)
    ensures FirstSpace(AddLine(name), 19) == 22 && AddLine(name)[19..22] == "add"
  {
    var t := AddLine(name);
    AddLineParts(name);
    assert t[19..22] == AddPrefix[19..22];
    assert t[19] == 'a' && t[20] == 'd' && t[21] == 'd' && t[22] == ' ';
  }

  lemma AddLineSubcommand(name: string)
    ensures SubcommandAt(AddLine(name), 19) == Some("add")
  {
    AddLineVerb(name);
    LowerUntouched("add");
  }

  lemma AddLineMatches(name: string)
    requires PlainName(name)
    ensures MatchAt(AddLine(name), 0) == Some(PatternMatch("add", 23))
  {
    AddLineScoreboard(name);
    AddLinePlayers(name);
    AddLineSpaces(name);
    AddLineSubcommand(name);
  }

  /** A match at the start of the text is the one found. */
  lemma FindPatternAtStart(t: string)
    requires MatchAt(t, 0).Some?
    ensures FindPattern(t) == Some(Located(0, MatchAt(t, 0).value))
  {
    assert Anchored(t)[0] == MatchAt(t, 0);
  }

  /** The pieces `ParseCommand` splits the arguments into. */
  lemma ParseCommandParts(line: string)
    requires ParseCommand(line).Some?
    ensures var e := FindPattern(Trim(line)).value.hit.end;
            e <= |Trim(line)| && ParseCommand(line).value.parts == SplitSpaces(Trim(Trim(line)[e..]))
  {
  }

  lemma AddLineTrimmed(name: string)
    ensures Trim(AddLine(name)) == AddLine(name) && SpaceEnd(AddLine(name), 0) == 0
  {
    var t := AddLine(name);
    AddLineParts(name);
    assert t[0] == 's' && t[|t| - 1] == '1';
    TrimUntouched(t);
  }

  lemma AddLineFound(name: string)
    requires PlainName(name)
    ensures FindPattern(AddLine(name)) == Some(Located(0, PatternMatch("add", 23)))
  {
    AddLineMatches(name);
    FindPatternAtStart(AddLine(name));
  }

  lemma AddLineArguments(name: string)
    requires PlainName(name)
    ensures SplitSpaces(Trim(AddLine(name)[23..]))[0] == name
  {
    AddLineParts(name);
    var x := name + " obj 1";
    assert x[0] == name[0] && x[|x| - 1] == '1';
    TrimUntouched(x);
    assert x[|name|] == ' ';
    assert FirstSpace(x, 0) == |name|;
    assert x[..|name|] == name;
  }

  /** Any one-word holder is the first argument, read at column 23. */
  lemma AddLineParsed(name: string)
    requires PlainName(name)
    ensures ParseCommand(AddLine(name)).Some?
    ensures ParseCommand(AddLine(name)).value.sub == "add" && ParseCommand(AddLine(name)).value.argStart == 23
    ensures ParseCommand(AddLine(name)).value.parts[0] == name
  {
    AddLineTrimmed(name);
    AddLineFound(name);
    ParseCommandParts(AddLine(name));
    AddLineArguments(name);
  }

  /** On a line that is not an `operation`, the rule as written warns over the first place the holder's text occurs. */
  lemma AsWrittenOn(line: string)
    requires ParseCommand(line).Some? && ParseCommand(line).value.sub != "operation"
    ensures var c := ParseCommand(line).value;
            var target := c.parts[0];
            CheckAsWritten(0, line, true)
            == if target != "" && FakeWith(target, WrittenLetters) then [Over(0, IndexOf(line, target), target)] else []
  {
    var c := ParseCommand(line).value;
    IndexOfFound(line, c.parts[0], c.argStart);
    assert CheckAsWritten(0, line, true) == Warnings(0, line, c, IndexOf(line, c.parts[0]), WrittenLetters);
  }

  /** `indexOf("a")` finds the `a` of `scoreboard`. */
  lemma IndexOfA()
    ensures IndexOf(AddLine("a"), "a") == 7
  {
    var t := AddLine("a");
    AddLineParts("a");
    assert t[7] == 'a';
    assert t[7..8] == [t[7]];
    forall j | 0 <= j < 7
      ensures !OccursAt(t, "a", j)
    {
      assert t[j..j + 1][0] == t[j];
    }
  }

  lemma AIsFake()
    ensures FakeWith("a", WrittenLetters)
  {
    TrimUntouched("a");
  }

  /** The range lands on the `a` of `scoreboard`, column 7, not on the name at column 23; the fix would then rewrite `scoreboard`. */
  lemma MisplacedTarget()
    ensures CheckAsWritten(0, AddLine("a"), true) == [FakePlayerDiag(0, 7, 8)]
    ensures ParseCommand(AddLine("a")).value.argStart == 23
  {
    AddLineParsed("a");
    AsWrittenOn(AddLine("a"));
    IndexOfA();
    AIsFake();
  }

  /** The corrected rule warns over the name itself, for every one-word holder that is not a selector. */
  lemma PlacedTarget(name: string)
    requires PlainName(name)
    ensures FakeWith(name, SelectorLetters) ==> CheckScoreboardFakePlayer(0, AddLine(name), true) == [Over(0, 23, name)]
    ensures !FakeWith(name, SelectorLetters) ==> CheckScoreboardFakePlayer(0, AddLine(name), true) == []
  {
    AddLineParsed(name);
  }

  // ------------------------------------------------------------ the nearest-entity selector

  /** No `@` stands before the holder. */
  lemma IndexOfNearest()
    ensures IndexOf(AddLine("@n"), "@n") == 23
  {
    var t := AddLine("@n");
    AddLineParts("@n");
    assert t[23..25] == "@n";
    assert OccursAt(t, "@n", 23);
    forall j | 0 <= j < 23
      ensures !OccursAt(t, "@n", j)
    {
      assert t[j..j + 2][0] == t[j] == AddPrefix[j];
    }
  }

  /** `@n` is a selector, and one that `isTargetSelector` does not know. */
  lemma NearestIsSelector()
    ensures IsSelectorOf("@n", SelectorLetters) && FakeWith("@n", WrittenLetters)
  {
    TrimUntouched("@n");
  }

  /** As written, `@n` is reported as a fake player. */
  lemma NearestAsWritten()
    ensures CheckAsWritten(0, AddLine("@n"), true) == [FakePlayerDiag(0, 23, 25)]
  {
    AddLineParsed("@n");
    AsWrittenOn(AddLine("@n"));
    IndexOfNearest();
    NearestIsSelector();
  }

  /** The corrected rule leaves `@n` alone. */
  lemma NearestSkipped()
    ensures CheckScoreboardFakePlayer(0, AddLine("@n"), true) == []
  {
    PlacedTarget("@n");
    NearestIsSelector();
  }
}
