/**
 * The execute-duplicate rule and its optimisation: the subcommands of an
 * `execute` line split into `subcommand args` tokens, a token repeating
 * an earlier one is redundant, and the optimised line keeps the first of
 * each. `as` / `at` tokens whose selector picks the nearest entity are
 * exempt: they are never reported and always kept.
 */
module ExecuteRedundant {
  import opened Wrappers
  import opened Text
  import opened Tokens
  import opened Scans
  import opened ExecuteGroup

  /** A subcommand with the words up to the next subcommand or `run`. */
  datatype ExecuteToken = ExecuteToken(subcommand: string, args: string, raw: string)

  /** The words `[start, end)` of one token: the subcommand at `start` and its arguments. */
  datatype Span = Span(start: nat, end: nat)

  /** A finding over the line's characters `[start, end)`. */
  datatype Finding = Finding(line: nat, start: nat, end: nat)

  // ----------------------------------------------------------- parsing

  /** The first word at or after `j` that is a subcommand or `run`, or the end. */
  function ArgsEnd(words: seq<string>, j: nat): (e: nat)
    requires j <= |words|
    ensures j <= e <= |words| && (e == |words| || ValidNext(words[e]))
    ensures forall k :: j <= k < e ==> !ValidNext(words[k])
    decreases |words| - j
  {
    if j == |words| || ValidNext(words[j]) then j else ArgsEnd(words, j + 1)
  }

  /** Parsing ends at word `e`: the end of the line or a `run`. */
  predicate Stops(words: seq<string>, e: nat)
    requires e <= |words|
  {
    e == |words| || words[e] == "run"
  }

  /**
   * The spans found from word `i` on: the words before the first
   * subcommand are skipped, every span starts at a subcommand and takes
   * the arguments up to the next subcommand or `run`, spans follow each
   * other without gaps, and the last one ends at the end or at a `run`.
   */
  predicate SpansOk(words: seq<string>, i: nat, r: seq<Span>)
    requires i <= |words|
  {
    SpansShaped(words, i, r) && Chained(r) && SpansEnd(words, i, r)
  }

  predicate SpansShaped(words: seq<string>, i: nat, r: seq<Span>) {
    forall j :: 0 <= j < |r| ==>
      && i <= r[j].start < r[j].end <= |words| && IsSubcommand(words[r[j].start])
      && r[j].end == ArgsEnd(words, r[j].start + 1)
  }

  predicate Chained(r: seq<Span>) {
    forall j :: 0 <= j < |r| - 1 ==> r[j].end == r[j + 1].start
  }

  predicate SpansEnd(words: seq<string>, i: nat, r: seq<Span>)
    requires i <= |words|
  {
    && (r == [] ==> Stops(words, ArgsEnd(words, i)))
    && (r != [] ==> r[0].start == ArgsEnd(words, i) && r[|r| - 1].end <= |words| && Stops(words, r[|r| - 1].end))
  }

  /** The loop of `parseExecuteTokens` from word `i`. */
  function Spans(words: seq<string>, i: nat): (r: seq<Span>)
    requires i <= |words|
    ensures SpansOk(words, i, r)
    decreases |words| - i
  {
    if i == |words| || words[i] == "run" then []
    else if IsSubcommand(words[i]) then
      var e := ArgsEnd(words, i + 1);
      var rest := Spans(words, e);
      SpanCons(words, i, rest);
      [Span(i, e)] + rest
    else
      Spans(words, i + 1)
  }

  lemma SpanCons(words: seq<string>, i: nat, rest: seq<Span>)
    requires i < |words| && IsSubcommand(words[i])
    requires SpansOk(words, ArgsEnd(words, i + 1), rest)
    ensures SpansOk(words, i, [Span(i, ArgsEnd(words, i + 1))] + rest)
  {
    var e := ArgsEnd(words, i + 1);
    ShapedCons(words, i, e, rest);
    ChainedCons(words, i, e, rest);
    EndCons(words, i, e, rest);
  }

  lemma ShapedCons(words: seq<string>, i: nat, e: nat, rest: seq<Span>)
    requires i < |words| && IsSubcommand(words[i]) && e == ArgsEnd(words, i + 1)
    requires SpansShaped(words, e, rest)
    ensures SpansShaped(words, i, [Span(i, e)] + rest)
  {
    var r := [Span(i, e)] + rest;
    forall j | 1 <= j < |r| ensures r[j] == rest[j - 1] {
    }
  }

  lemma ChainedCons(words: seq<string>, i: nat, e: nat, rest: seq<Span>)
    requires e <= |words| && SpansEnd(words, e, rest) && Chained(rest)
    requires e == |words| || ValidNext(words[e])
    ensures Chained([Span(i, e)] + rest)
  {
    var r := [Span(i, e)] + rest;
    ArgsEndAt(words, e);
    forall j | 0 <= j < |r| - 1 ensures r[j].end == r[j + 1].start {
      assert r[j + 1] == rest[j];
      if j > 0 { assert r[j] == rest[j - 1]; }
    }
  }

  lemma EndCons(words: seq<string>, i: nat, e: nat, rest: seq<Span>)
    requires i < |words| && IsSubcommand(words[i]) && i < e <= |words|
    requires e == |words| || ValidNext(words[e])
    requires SpansEnd(words, e, rest)
    ensures SpansEnd(words, i, [Span(i, e)] + rest)
  {
    var r := [Span(i, e)] + rest;
    ArgsEndAt(words, e);
    ArgsEndAt(words, i);
    if rest != [] {
      assert r[|r| - 1] == rest[|rest| - 1];
    }
  }

  /** The search for the end of the arguments stops at once on a subcommand, `run` or the end. */
  lemma ArgsEndAt(words: seq<string>, e: nat)
    requires e <= |words| && (e == |words| || ValidNext(words[e]))
    ensures ArgsEnd(words, e) == e
  {
  }

  /** `${subcommand} ${args}`, trimmed, with the arguments joined by single spaces. */
  function TokenOf(words: seq<string>, sp: Span): (t: ExecuteToken)
    requires sp.start < sp.end <= |words|
  {
    var args := Join(words[sp.start + 1..sp.end], " ");
    ExecuteToken(words[sp.start], args, Trim(words[sp.start] + " " + args))
  }

  /**
   * `parseExecuteTokens`: nothing unless the first word is `execute`;
   * otherwise one token per span found from the second word on.
   */
  function ParseExecuteTokens(line: string): (r: seq<ExecuteToken>)
    ensures forall j :: 0 <= j < |r| ==> IsSubcommand(r[j].subcommand)
    ensures var words := Words(line); (words == [] || words[0] != "execute") ==> r == []
  {
    var words := Words(line);
    if words == [] || words[0] != "execute" then []
    else
      var sp := Spans(words, 1);
      seq(|sp|, j requires 0 <= j < |sp| => TokenOf(words, sp[j]))
  }

  // ------------------------------------------------- duplicate detection

  /** `hasSortNearest`. */
  predicate HasSortNearest(selector: string) {
    NearestSelector(selector) || SortsNearest(selector)
  }

  /** The map key `${subcommand}:${args}`. */
  function Key(t: ExecuteToken): string {
    t.subcommand + ":" + t.args
  }

  /** An `as` / `at` token whose selector picks the nearest entity. */
  predicate Exempt(t: ExecuteToken) {
    (t.subcommand == "at" || t.subcommand == "as") && HasSortNearest(t.args)
  }

  /** `findDuplicateSubcommands` from token `i`, the keys in `seen` being those met so far. */
  function Duplicates(tokens: seq<ExecuteToken>, i: nat, seen: set<string>): (r: seq<nat>)
    requires i <= |tokens|
    ensures |r| <= |tokens| - i
    ensures forall j :: 0 <= j < |r| ==> i <= r[j] < |tokens|
    ensures forall j :: 0 <= j < |r| - 1 ==> r[j] < r[j + 1]
    decreases |tokens| - i
  {
    if i == |tokens| then []
    else
      var k := Key(tokens[i]);
      if k in seen then [i] + Duplicates(tokens, i + 1, seen)
      else if Exempt(tokens[i]) then Duplicates(tokens, i + 1, seen)
      else Duplicates(tokens, i + 1, seen + {k})
  }

  /** The loop of `getOptimizedExecute` from token `i`: the positions of the tokens it keeps. */
  function KeptFrom(tokens: seq<ExecuteToken>, i: nat, seen: set<string>): (r: seq<nat>)
    requires i <= |tokens|
    ensures |r| <= |tokens| - i
    ensures forall j :: 0 <= j < |r| ==> i <= r[j] < |tokens|
    ensures forall j :: 0 <= j < |r| - 1 ==> r[j] < r[j + 1]
    decreases |tokens| - i
  {
    if i == |tokens| then []
    else
      var k := Key(tokens[i]);
      if Exempt(tokens[i]) then [i] + KeptFrom(tokens, i + 1, seen)
      else if k !in seen then [i] + KeptFrom(tokens, i + 1, seen + {k})
      else KeptFrom(tokens, i + 1, seen)
  }

  /** Token `d` repeats a key in `seen` or the key of a non-exempt token from `i` before it. */
  predicate Repeats(tokens: seq<ExecuteToken>, i: nat, seen: set<string>, d: nat)
    requires d < |tokens|
  {
    Key(tokens[d]) in seen || exists j :: i <= j < d && !Exempt(tokens[j]) && Key(tokens[j]) == Key(tokens[d])
  }

  /** A token is reported exactly when it repeats an earlier non-exempt token's key. */
  lemma {:induction false} DuplicatesSpec(tokens: seq<ExecuteToken>, i: nat, seen: set<string>, d: nat)
    requires i <= d < |tokens|
    ensures d in Duplicates(tokens, i, seen) <==> Repeats(tokens, i, seen, d)
    decreases |tokens| - i
  {
    var k := Key(tokens[i]);
    var seen' := if k in seen || Exempt(tokens[i]) then seen else seen + {k};
    if d > i {
      DuplicatesSpec(tokens, i + 1, seen', d);
      RepeatsStep(tokens, i, seen, d);
    }
  }

  /** A token is kept exactly when it is exempt or does not repeat an earlier non-exempt key. */
  lemma {:induction false} KeptSpec(tokens: seq<ExecuteToken>, i: nat, seen: set<string>, d: nat)
    requires i <= d < |tokens|
    ensures d in KeptFrom(tokens, i, seen) <==> Exempt(tokens[d]) || !Repeats(tokens, i, seen, d)
    decreases |tokens| - i
  {
    var k := Key(tokens[i]);
    var seen' := if k in seen || Exempt(tokens[i]) then seen else seen + {k};
    if d > i {
      KeptSpec(tokens, i + 1, seen', d);
      RepeatsStep(tokens, i, seen, d);
    }
  }

  /** One step of either loop: token `i` moves into `seen` unless it is exempt. */
  lemma RepeatsStep(tokens: seq<ExecuteToken>, i: nat, seen: set<string>, d: nat)
    requires i < d < |tokens|
    ensures var k := Key(tokens[i]);
            var seen' := if k in seen || Exempt(tokens[i]) then seen else seen + {k};
            Repeats(tokens, i, seen, d) <==> Repeats(tokens, i + 1, seen', d)
  {
    var k := Key(tokens[i]);
    var seen' := if k in seen || Exempt(tokens[i]) then seen else seen + {k};
    if Repeats(tokens, i, seen, d) && Key(tokens[d]) !in seen {
      var j :| i <= j < d && !Exempt(tokens[j]) && Key(tokens[j]) == Key(tokens[d]);
      if j > i {
        assert i + 1 <= j < d;
      }
    }
    if Repeats(tokens, i + 1, seen', d) && Key(tokens[d]) !in seen' {
      var j :| i + 1 <= j < d && !Exempt(tokens[j]) && Key(tokens[j]) == Key(tokens[d]);
      assert i <= j < d;
    }
  }

  /**
   * An exempt token's key belongs to no other token: `at:` / `as:` can
   * only begin the key of an `at` / `as` token, since no subcommand has
   * a colon as its third character.
   */
  lemma ExemptKeyUnique(a: ExecuteToken, b: ExecuteToken)
    requires Exempt(a) && IsSubcommand(b.subcommand) && Key(a) == Key(b)
    ensures b.subcommand == a.subcommand && b.args == a.args
  {
    SubcommandShape(b.subcommand);
    var m := |b.subcommand|;
    assert Key(a)[1] == a.subcommand[1] && Key(a)[2] == ':';
    if m == 2 {
      assert b.subcommand == Key(b)[..2] && a.subcommand == Key(a)[..2];
      assert b.args == Key(b)[3..] && a.args == Key(a)[3..];
    } else {
      assert false;
    }
  }

  predicate AllSubcommands(tokens: seq<ExecuteToken>) {
    forall j :: 0 <= j < |tokens| ==> IsSubcommand(tokens[j].subcommand)
  }

  /** An exempt token is never reported: its key can only be shared by exempt tokens. */
  lemma ExemptNeverDuplicate(tokens: seq<ExecuteToken>, d: nat)
    requires AllSubcommands(tokens) && d < |tokens| && Exempt(tokens[d])
    ensures d !in Duplicates(tokens, 0, {})
  {
    DuplicatesSpec(tokens, 0, {}, d);
    if Repeats(tokens, 0, {}, d) {
      var j :| 0 <= j < d && !Exempt(tokens[j]) && Key(tokens[j]) == Key(tokens[d]);
      ExemptKeyUnique(tokens[d], tokens[j]);
    }
  }

  /** No exempt token's key is in `seen`. */
  predicate SeenOk(tokens: seq<ExecuteToken>, seen: set<string>) {
    forall j :: 0 <= j < |tokens| && Exempt(tokens[j]) ==> Key(tokens[j]) !in seen
  }

  lemma SeenGrows(tokens: seq<ExecuteToken>, seen: set<string>, i: nat)
    requires AllSubcommands(tokens) && SeenOk(tokens, seen) && i < |tokens| && !Exempt(tokens[i])
    ensures SeenOk(tokens, seen + {Key(tokens[i])})
  {
    forall j | 0 <= j < |tokens| && Exempt(tokens[j]) ensures Key(tokens[j]) != Key(tokens[i]) {
      if Key(tokens[j]) == Key(tokens[i]) {
        ExemptKeyUnique(tokens[j], tokens[i]);
      }
    }
  }

  /** Every token is either reported or kept, never both. */
  lemma {:induction false} ReportedOrKept(tokens: seq<ExecuteToken>, i: nat, seen: set<string>)
    requires i <= |tokens| && AllSubcommands(tokens) && SeenOk(tokens, seen)
    ensures |Duplicates(tokens, i, seen)| + |KeptFrom(tokens, i, seen)| == |tokens| - i
    decreases |tokens| - i
  {
    if i < |tokens| {
      var k := Key(tokens[i]);
      if Exempt(tokens[i]) || k in seen {
        ReportedOrKept(tokens, i + 1, seen);
      } else {
        SeenGrows(tokens, seen, i);
        ReportedOrKept(tokens, i + 1, seen + {k});
      }
    }
  }

  // ---------------------------------------------------------- the rule

  /** The lines both functions leave alone: not `execute `, or `execute run …`. */
  predicate Ignored(trimmed: string) {
    !StartsWith(trimmed, "execute ") || ExecuteRunStart(trimmed)
  }

  /** `checkExecuteRedundant`: one finding over the whole line when some token repeats. */
  function CheckExecuteRedundant(lineIndex: nat, line: string): (r: seq<Finding>)
    ensures Ignored(Trim(line)) ==> r == []
    ensures r != [] ==> r == [Finding(lineIndex, 0, |line|)]
  {
    var trimmed := Trim(line);
    if Ignored(trimmed) then []
    else if Duplicates(ParseExecuteTokens(trimmed), 0, {}) != [] then [Finding(lineIndex, 0, |line|)]
    else []
  }

  /** ` run <tail>` when the line has a `run` tail, else nothing. */
  function RunPart(trimmed: string): (r: string)
    ensures r == [] || (StartsWith(r, " run ") && EndsWith(trimmed, r[5..]))
  {
    match RunTail(trimmed)
    case Some(tail) =>
      assert (" run " + tail)[5..] == tail;
      " run " + tail
    case None => ""
  }

  /** The raw text of the tokens at positions `kept`, in that order. */
  function Raws(tokens: seq<ExecuteToken>, kept: seq<nat>): (r: seq<string>)
    requires forall j :: 0 <= j < |kept| ==> kept[j] < |tokens|
    ensures |r| == |kept| && forall j :: 0 <= j < |kept| ==> r[j] == tokens[kept[j]].raw
  {
    seq(|kept|, j requires 0 <= j < |kept| => tokens[kept[j]].raw)
  }

  /**
   * `getOptimizedExecute`: the line rebuilt from the kept tokens' raw
   * text and the `run` tail, or nothing when every token is kept.
   */
  function GetOptimizedExecute(line: string): (r: Option<string>)
    ensures Ignored(Trim(line)) ==> r.None?
    ensures r.Some? ==> var tokens := ParseExecuteTokens(Trim(line));
                        var kept := KeptFrom(tokens, 0, {});
                        |kept| < |tokens| && r.value == "execute " + Join(Raws(tokens, kept), " ") + RunPart(Trim(line))
  {
    var trimmed := Trim(line);
    if Ignored(trimmed) then None
    else
      var tokens := ParseExecuteTokens(trimmed);
      var kept := KeptFrom(tokens, 0, {});
      if |kept| == |tokens| then None
      else Some("execute " + Join(Raws(tokens, kept), " ") + RunPart(trimmed))
  }

  /** The rule and its fix agree: a line is reported exactly when it has an optimised form. */
  lemma ReportedIffOptimized(lineIndex: nat, line: string)
    ensures CheckExecuteRedundant(lineIndex, line) != [] <==> GetOptimizedExecute(line).Some?
  {
    var trimmed := Trim(line);
    if !Ignored(trimmed) {
      var tokens := ParseExecuteTokens(trimmed);
      ReportedOrKept(tokens, 0, {});
    }
  }

  /**
   * What the optimised line keeps: exactly the tokens that are exempt or
   * whose key no earlier token has, in their order; an exempt token is
   * never the reason for a report.
   */
  lemma KeepsFirstOccurrences(line: string, d: nat)
    requires var tokens := ParseExecuteTokens(Trim(line)); d < |tokens|
    ensures var tokens := ParseExecuteTokens(Trim(line));
            && (d in KeptFrom(tokens, 0, {}) <==>
                  Exempt(tokens[d]) || forall j :: 0 <= j < d ==> Key(tokens[j]) != Key(tokens[d]))
            && (d in Duplicates(tokens, 0, {}) <==> d !in KeptFrom(tokens, 0, {}))
  {
    var tokens := ParseExecuteTokens(Trim(line));
    KeptSpec(tokens, 0, {}, d);
    DuplicatesSpec(tokens, 0, {}, d);
    if !Exempt(tokens[d]) {
      forall j | 0 <= j < d && Key(tokens[j]) == Key(tokens[d]) ensures !Exempt(tokens[j]) {
        if Exempt(tokens[j]) {
          ExemptKeyUnique(tokens[j], tokens[d]);
        }
      }
    } else {
      ExemptNeverDuplicate(tokens, d);
    }
  }
}
