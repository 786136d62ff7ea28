/**
 * The `@e` / `@n` selector rule: each selector of a line is parsed into
 * its `key=value` arguments, and warned about when it filters on no
 * entity `type`, on no position (`x`, `y`, `z`, `distance`), or when its
 * `type` argument is not the last one.
 */
module TargetSelector {
  import opened Wrappers
  import opened Text
  import opened Tokens

  /** One `key=value` argument; `negated` when the value was written `!value`. */
  datatype SelectorArgument = SelectorArgument(key: string, value: string, negated: bool, raw: string)

  /** A selector found in a line: its letter, arguments, text and span `[startIndex, endIndex)`. */
  datatype ParsedSelector = ParsedSelector(letter: char, arguments: seq<SelectorArgument>, raw: string, startIndex: nat, endIndex: nat)

  /** A value and whether it was negated: one leading `!` is taken off. */
  function Unnegate(v: string): (r: (bool, string))
    ensures r.0 <==> StartsWith(v, "!")
    ensures (if r.0 then "!" + r.1 else r.1) == v
  {
    if StartsWith(v, "!") then
      assert v == v[..1] + v[1..];
      (true, v[1..])
    else (false, v)
  }

  /**
   * `parseArgument`: split at the first `=`, trim both sides, and take one
   * leading `!` off the value as the negation; no argument without `=`.
   * The source's `indexOf("=")` is the first `=` character.
   */
  function ParseArgument(arg: string): (r: Option<SelectorArgument>)
    ensures r.Some? ==> r.value.raw == arg
  {
    var eq := FindChar(arg, '=', 0);
    if eq == -1 then None
    else
      var (negated, value) := Unnegate(Trim(arg[eq + 1..]));
      Some(SelectorArgument(Trim(arg[..eq]), value, negated, arg))
  }

  /** Parsing fails exactly when the text holds no `=`. */
  lemma ParseArgumentNone(arg: string)
    ensures ParseArgument(arg).None? <==> '=' !in arg
  {
    var eq := FindChar(arg, '=', 0);
    if eq != -1 {
      assert arg[eq] in arg;
    }
  }

  /** With its first `=` at `eq`, a text parses to the trimmed key before it and the trimmed, unnegated value after it. */
  lemma ParseArgumentAt(arg: string, eq: nat)
    requires eq < |arg| && arg[eq] == '=' && '=' !in arg[..eq]
    ensures var v := Unnegate(Trim(arg[eq + 1..]));
            ParseArgument(arg) == Some(SelectorArgument(Trim(arg[..eq]), v.1, v.0, arg))
  {
  }

  /** An argument as parsing produces it: its trimmed raw text parses back to it. */
  predicate ReadsBack(a: SelectorArgument) {
    ParseArgument(Trim(a.raw)) == Some(a)
  }

  /**
   * The arguments of the segments, in order: each trimmed segment that
   * holds a `=`. The source parses the last segment only when it is not
   * blank, which changes nothing since a blank segment holds no `=`.
   */
  function ArgumentsOf(segments: seq<string>): seq<SelectorArgument> {
    if segments == [] then []
    else
      var parsed := ParseArgument(Trim(segments[0]));
      (if parsed.Some? then [parsed.value] else []) + ArgumentsOf(segments[1..])
  }

  /** Every argument reads back. */
  predicate AllReadBack(args: seq<SelectorArgument>) {
    args == [] || (ReadsBack(args[0]) && AllReadBack(args[1..]))
  }

  /** Every argument parsed from segments reads back from its raw text. */
  lemma {:induction false} ArgumentsReadBack(segments: seq<string>)
    ensures AllReadBack(ArgumentsOf(segments))
  {
    if segments != [] {
      ArgumentsReadBack(segments[1..]);
      var parsed := ParseArgument(Trim(segments[0]));
      var rest := ArgumentsOf(segments[1..]);
      if parsed.Some? {
        TrimIdempotent(segments[0]);
        assert ([parsed.value] + rest)[1..] == rest;
      } else {
        assert ArgumentsOf(segments) == rest;
      }
    }
  }

  /** The written arguments, in order. */
  function Raws(args: seq<SelectorArgument>): (r: seq<string>)
    ensures |r| == |args| && forall j :: 0 <= j < |args| ==> r[j] == args[j].raw
  {
    seq(|args|, j requires 0 <= j < |args| => args[j].raw)
  }

  /** `parseArguments`: no arguments for an absent or empty `[]` part, else those of the depth-0 comma segments. */
  function ParseArguments(argsRaw: string): seq<SelectorArgument> {
    if argsRaw == "" || argsRaw == "[]" then [] else ArgumentsOf(SplitArgs(Inner(argsRaw)))
  }

  /**
   * Arguments as the segment loop writes them: every raw text but the last
   * is balanced, and every one is open, since only a comma at depth 0 ends
   * a segment.
   */
  predicate Rejoinable(args: seq<SelectorArgument>) {
    && (forall j :: 0 <= j < |args| - 1 ==> Balanced(args[j].raw))
    && (forall j :: 0 <= j < |args| ==> Open(args[j].raw))
  }

  /** Arguments as parsing produces them. */
  predicate AsParsed(args: seq<SelectorArgument>) {
    AllReadBack(args) && Rejoinable(args)
  }

  lemma RejoinableCons(a: SelectorArgument, rest: seq<SelectorArgument>)
    requires Open(a.raw) && (rest != [] ==> Balanced(a.raw)) && Rejoinable(rest)
    ensures Rejoinable([a] + rest)
  {
    var r := [a] + rest;
    assert forall j :: 1 <= j < |r| ==> r[j] == rest[j - 1];
  }

  lemma SegmentsTail(segments: seq<string>)
    requires segments != []
    requires forall j :: 0 <= j < |segments| - 1 ==> Balanced(segments[j])
    requires forall j :: 0 <= j < |segments| ==> Open(segments[j])
    ensures forall j :: 0 <= j < |segments[1..]| - 1 ==> Balanced(segments[1..][j])
    ensures forall j :: 0 <= j < |segments[1..]| ==> Open(segments[1..][j])
    ensures Open(segments[0]) && (|segments| > 1 ==> Balanced(segments[0]))
  {
    assert forall j :: 0 <= j < |segments[1..]| ==> segments[1..][j] == segments[j + 1];
  }

  /** Keeping the trimmed segments that hold a `=` keeps their shape. */
  lemma {:induction false} ArgumentsOfShape(segments: seq<string>)
    requires forall j :: 0 <= j < |segments| - 1 ==> Balanced(segments[j])
    requires forall j :: 0 <= j < |segments| ==> Open(segments[j])
    ensures Rejoinable(ArgumentsOf(segments))
  {
    if segments != [] {
      var parsed := ParseArgument(Trim(segments[0]));
      var rest := ArgumentsOf(segments[1..]);
      SegmentsTail(segments);
      ArgumentsOfShape(segments[1..]);
      if parsed.Some? {
        TrimKeepsDepth(segments[0]);
        assert rest != [] ==> |segments| > 1;
        RejoinableCons(parsed.value, rest);
      } else {
        assert ArgumentsOf(segments) == rest;
      }
    }
  }

  /** Parsing gives arguments that read back, and none for an absent or empty `[]` part. */
  lemma ParsedReadBack(argsRaw: string)
    ensures argsRaw == "" || argsRaw == "[]" ==> ParseArguments(argsRaw) == []
    ensures AllReadBack(ParseArguments(argsRaw))
  {
    if !(argsRaw == "" || argsRaw == "[]") {
      ArgumentsReadBack(SplitArgs(Inner(argsRaw)));
    }
  }

  /** Parsing gives arguments as the segment loop writes them. */
  lemma ParsedShape(argsRaw: string)
    ensures AsParsed(ParseArguments(argsRaw))
  {
    ParsedReadBack(argsRaw);
    if !(argsRaw == "" || argsRaw == "[]") {
      SplitArgsShape(Inner(argsRaw));
      ArgumentsOfShape(SplitArgs(Inner(argsRaw)));
    }
  }

  const SelectorLetters: set<char> := {'e', 'n'}

  function SelectorOf(line: string, m: SelectorMatch): ParsedSelector
    requires IsMatch(line, m, SelectorLetters)
  {
    ParsedSelector(m.letter, ParseArguments(m.args), line[m.start..m.end], m.start, m.end)
  }

  /**
   * A selector that `@([en])(\[[^\]]*\])?` matches in `line` at its start
   * index, with the arguments parsed from its `[…]` part (empty when the
   * optional group is absent).
   */
  predicate Found(line: string, s: ParsedSelector) {
    && s.startIndex + 2 <= s.endIndex <= |line|
    && s.raw == line[s.startIndex..s.endIndex]
    && line[s.startIndex] == '@' && s.letter == line[s.startIndex + 1] && s.letter in SelectorLetters
    && s.endIndex - (s.startIndex + 2) == BracketLen(line, s.startIndex + 2)
    && s.arguments == ParseArguments(line[s.startIndex + 2..s.endIndex])
  }

  /**
   * `parseSelectors`: the matches of the global selector regex, left to
   * right and without overlapping, and no match is dropped: every place an
   * `@e` or `@n` starts lies inside a reported selector.
   */
  function ParseSelectors(line: string): (r: seq<ParsedSelector>)
    ensures forall k :: 0 <= k < |r| ==> Found(line, r[k])
    ensures forall k :: 0 <= k < |r| - 1 ==> r[k].endIndex <= r[k + 1].startIndex
    ensures forall p :: 0 <= p <= |line| && SelectorAt(line, p, SelectorLetters).Some? ==>
              exists k :: 0 <= k < |r| && r[k].startIndex <= p < r[k].endIndex
  {
    var ms := ScanSelectors(line, 0, SelectorLetters);
    var r := seq(|ms|, k requires 0 <= k < |ms| => SelectorOf(line, ms[k]));
    SelectorsOfMatches(line, ms, r);
    r
  }

  lemma SelectorFound(line: string, m: SelectorMatch)
    requires IsMatch(line, m, SelectorLetters)
    ensures Found(line, SelectorOf(line, m))
  {
  }

  /** The selectors built from a complete scan keep its order and its coverage. */
  lemma SelectorsOfMatches(line: string, ms: seq<SelectorMatch>, r: seq<ParsedSelector>)
    requires ScanOk(line, 0, ms, SelectorLetters) && Covers(line, 0, ms, SelectorLetters)
    requires |r| == |ms| && forall k :: 0 <= k < |ms| ==> r[k] == SelectorOf(line, ms[k])
    ensures forall k :: 0 <= k < |r| ==> Found(line, r[k])
    ensures forall k :: 0 <= k < |r| - 1 ==> r[k].endIndex <= r[k + 1].startIndex
    ensures forall p :: 0 <= p <= |line| && SelectorAt(line, p, SelectorLetters).Some? ==>
              exists k :: 0 <= k < |r| && r[k].startIndex <= p < r[k].endIndex
  {
    forall k | 0 <= k < |r| ensures Found(line, r[k]) {
      SelectorFound(line, ms[k]);
    }
    forall k | 0 <= k < |r| - 1 ensures r[k].endIndex <= r[k + 1].startIndex {
      assert ms[k].end <= ms[k + 1].start;
    }
    forall p | 0 <= p <= |line| && SelectorAt(line, p, SelectorLetters).Some?
      ensures exists k :: 0 <= k < |r| && r[k].startIndex <= p < r[k].endIndex
    {
      var k :| 0 <= k < |ms| && ms[k].start <= p < ms[k].end;
      assert r[k].startIndex <= p < r[k].endIndex;
    }
  }

  /** `keys.includes(k)`. */
  predicate HasKey(args: seq<SelectorArgument>, k: string) {
    exists j :: 0 <= j < |args| && args[j].key == k
  }

  /** `keys.indexOf(k)`: the first argument with key `k`, or -1. */
  function FirstKey(args: seq<SelectorArgument>, k: string): (r: int)
    ensures r == -1 <==> !HasKey(args, k)
    ensures r != -1 ==> 0 <= r < |args| && args[r].key == k && forall j :: 0 <= j < r ==> args[j].key != k
  {
    if args == [] then -1
    else if args[0].key == k then 0
    else
      var t := FirstKey(args[1..], k);
      if t == -1 then
        assert forall j :: 1 <= j < |args| ==> args[j] == args[1..][j - 1];
        -1
      else
        assert forall j :: 1 <= j <= t + 1 ==> args[j] == args[1..][j - 1];
        t + 1
  }

  /** Some of `x`, `y`, `z`, `distance` is given. */
  predicate HasDimension(args: seq<SelectorArgument>) {
    HasKey(args, "x") || HasKey(args, "y") || HasKey(args, "z") || HasKey(args, "distance")
  }

  datatype Check = NoType | NoDimension | TypeOrder

  /** The `type` argument is given but is not the last argument. */
  predicate TypeMisplaced(args: seq<SelectorArgument>) {
    HasKey(args, "type") && FirstKey(args, "type") != |args| - 1
  }

  /** A selector with these arguments fails check `c`. */
  predicate Fails(args: seq<SelectorArgument>, c: Check) {
    match c
    case NoType => !HasKey(args, "type")
    case NoDimension => !HasDimension(args)
    case TypeOrder => TypeMisplaced(args)
  }

  /**
   * The checks a selector with these arguments fails, in the order the
   * source raises them, each at most once: no `type`, no position, `type`
   * not last.
   */
  function Failed(args: seq<SelectorArgument>): (r: seq<Check>)
    ensures |r| <= 3
    ensures forall i, j :: 0 <= i < j < |r| ==> r[i] != r[j]
    ensures NoType in r <==> !HasKey(args, "type")
    ensures NoDimension in r <==> !HasDimension(args)
    ensures TypeOrder in r <==> TypeMisplaced(args)
    ensures forall c :: c in r <==> Fails(args, c)
  {
    (if !HasKey(args, "type") then [NoType] else [])
    + (if !HasDimension(args) then [NoDimension] else [])
    + (if TypeMisplaced(args) then [TypeOrder] else [])
  }

  /** A warning on `[start, end)` of line `line`. */
  datatype SelectorDiag = SelectorDiag(check: Check, line: nat, start: nat, end: nat)

  /**
   * The warnings of one selector: exactly one for each check it fails,
   * none twice, each on the given line and the selector's span.
   */
  function SelectorDiags(lineIndex: nat, s: ParsedSelector): (r: seq<SelectorDiag>)
    ensures |r| <= 3
    ensures forall i, j :: 0 <= i < j < |r| ==> r[i] != r[j]
    ensures forall d :: d in r ==>
              d.line == lineIndex && d.start == s.startIndex && d.end == s.endIndex && Fails(s.arguments, d.check)
    ensures forall c :: Fails(s.arguments, c) ==> SelectorDiag(c, lineIndex, s.startIndex, s.endIndex) in r
  {
    var cs := Failed(s.arguments);
    var r := seq(|cs|, j requires 0 <= j < |cs| => SelectorDiag(cs[j], lineIndex, s.startIndex, s.endIndex));
    DiagsOfChecks(lineIndex, s, cs, r);
    r
  }

  /** One warning per distinct failed check gives exactly the failed checks, each once. */
  lemma DiagsOfChecks(lineIndex: nat, s: ParsedSelector, cs: seq<Check>, r: seq<SelectorDiag>)
    requires |cs| <= 3 && forall i, j :: 0 <= i < j < |cs| ==> cs[i] != cs[j]
    requires forall c :: c in cs <==> Fails(s.arguments, c)
    requires |r| == |cs| && forall j :: 0 <= j < |cs| ==> r[j] == SelectorDiag(cs[j], lineIndex, s.startIndex, s.endIndex)
    ensures |r| <= 3
    ensures forall i, j :: 0 <= i < j < |r| ==> r[i] != r[j]
    ensures forall d :: d in r ==>
              d.line == lineIndex && d.start == s.startIndex && d.end == s.endIndex && Fails(s.arguments, d.check)
    ensures forall c :: Fails(s.arguments, c) ==> SelectorDiag(c, lineIndex, s.startIndex, s.endIndex) in r
  {
    forall i, j | 0 <= i < j < |r| ensures r[i] != r[j] {
      assert r[i].check == cs[i] && r[j].check == cs[j];
    }
    forall d | d in r
      ensures d.line == lineIndex && d.start == s.startIndex && d.end == s.endIndex && Fails(s.arguments, d.check)
    {
      var j :| 0 <= j < |r| && r[j] == d;
      assert cs[j] in cs;
    }
    forall c | Fails(s.arguments, c) ensures SelectorDiag(c, lineIndex, s.startIndex, s.endIndex) in r {
      var j :| 0 <= j < |cs| && cs[j] == c;
      assert r[j] == SelectorDiag(c, lineIndex, s.startIndex, s.endIndex);
    }
  }

  /**
   * The warnings of the selectors, in order: each is on the given line and
   * the span of a selector that fails its check, and every check that a
   * selector fails is warned about on that selector's span.
   */
  function DiagsOf(lineIndex: nat, sels: seq<ParsedSelector>): (r: seq<SelectorDiag>)
    ensures |r| <= 3 * |sels|
    ensures forall d :: d in r ==>
              d.line == lineIndex &&
              exists s :: s in sels && d.start == s.startIndex && d.end == s.endIndex && Fails(s.arguments, d.check)
    ensures forall s, c :: s in sels && Fails(s.arguments, c) ==>
              SelectorDiag(c, lineIndex, s.startIndex, s.endIndex) in r
  {
    if sels == [] then []
    else
      var here := SelectorDiags(lineIndex, sels[0]);
      var rest := DiagsOf(lineIndex, sels[1..]);
      assert forall s :: s in sels[1..] ==> s in sels;
      assert forall s :: s in sels ==> s == sels[0] || s in sels[1..];
      assert sels[0] in sels;
      here + rest
  }

  /**
   * `checkTargetSelector`: exactly the warnings the line's selectors earn,
   * at most three per selector, each on the span of a selector that fails
   * its check.
   */
  function CheckTargetSelector(lineIndex: nat, line: string): (r: seq<SelectorDiag>)
    ensures |r| <= 3 * |ParseSelectors(line)|
    ensures forall d :: d in r ==>
              d.line == lineIndex &&
              exists s :: s in ParseSelectors(line) && d.start == s.startIndex && d.end == s.endIndex && Fails(s.arguments, d.check)
    ensures forall s, c :: s in ParseSelectors(line) && Fails(s.arguments, c) ==>
              SelectorDiag(c, lineIndex, s.startIndex, s.endIndex) in r
  {
    DiagsOf(lineIndex, ParseSelectors(line))
  }

  /** Every warning of every selector is among the line's warnings. */
  lemma {:induction false} DiagsOfSelectors(lineIndex: nat, sels: seq<ParsedSelector>, k: nat, d: SelectorDiag)
    requires k < |sels| && d in SelectorDiags(lineIndex, sels[k])
    ensures d in DiagsOf(lineIndex, sels)
  {
    if k > 0 {
      DiagsOfSelectors(lineIndex, sels[1..], k - 1, d);
    }
  }
}
