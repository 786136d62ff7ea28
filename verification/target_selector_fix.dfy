/**
 * The two quick fixes of the selector rule: put `distance=0..` first in
 * a selector without a position, and move the `type` argument to the
 * end. Each rewrites the selector whose span is exactly the warning's.
 */
module TargetSelectorFix {
  import opened Wrappers
  import opened Text
  import opened Tokens
  import opened TargetSelector
  import Seqs

  /** `selectors.find(...)`: the first selector whose span is exactly `[start, end)`. */
  function FindSelector(sels: seq<ParsedSelector>, start: nat, end: nat): (r: Option<ParsedSelector>)
    ensures r.Some? ==> r.value in sels && r.value.startIndex == start && r.value.endIndex == end
    ensures r.None? ==> forall s :: s in sels ==> !(s.startIndex == start && s.endIndex == end)
  {
    if sels == [] then None
    else if sels[0].startIndex == start && sels[0].endIndex == end then Some(sels[0])
    else FindSelector(sels[1..], start, end)
  }

  const DistanceRaw: string := "distance=0.."

  /** The argument `distance=0..` as parsing reads it. */
  const DistanceArgument: SelectorArgument := SelectorArgument("distance", "0..", false, DistanceRaw)

  /** The bracket part after the no-position fix: `distance=0..`, then the written arguments. */
  function NoDimensionArgs(args: seq<SelectorArgument>): string {
    if args == [] then "[" + DistanceRaw + "]" else "[" + DistanceRaw + "," + Join(Raws(args), ",") + "]"
  }

  /**
   * `createTargetSelectorNoDimensionFix`: the replacement text for the
   * selector at `[start, end)` of the line, or no edit when no selector
   * has exactly that span.
   */
  function NoDimensionFix(line: string, start: nat, end: nat): (r: Option<string>)
    ensures r.Some? <==> FindSelector(ParseSelectors(line), start, end).Some?
    ensures r.Some? ==> var s := FindSelector(ParseSelectors(line), start, end).value;
              && |r.value| >= 2 && r.value[..2] == "@" + [s.letter]
              && ParseArguments(r.value[2..]) == [DistanceArgument] + s.arguments
              && HasDimension(ParseArguments(r.value[2..]))
  {
    match FindSelector(ParseSelectors(line), start, end)
    case None => None
    case Some(s) =>
      var text := "@" + [s.letter] + NoDimensionArgs(s.arguments);
      SelectorArgsParsed(line, s);
      NoDimensionResolves(s.arguments);
      assert text[2..] == NoDimensionArgs(s.arguments);
      Some(text)
  }

  /** The arguments of a selector of a line are as parsing produces them. */
  lemma SelectorArgsParsed(line: string, s: ParsedSelector)
    requires s in ParseSelectors(line)
    ensures AsParsed(s.arguments)
  {
    var sels := ParseSelectors(line);
    var k :| 0 <= k < |sels| && sels[k] == s;
    assert Found(line, sels[k]);
    ParsedShape(line[s.startIndex + 2..s.endIndex]);
  }

  /** The arguments whose key is not `k`, in order. */
  function WithoutKey(args: seq<SelectorArgument>, k: string): (r: seq<SelectorArgument>)
    ensures |r| <= |args|
    ensures forall a :: a in r <==> a in args && a.key != k
  {
    if args == [] then []
    else (if args[0].key != k then [args[0]] else []) + WithoutKey(args[1..], k)
  }

  /** Filtering a concatenation filters each part. */
  lemma {:induction false} WithoutKeyAppend(a: seq<SelectorArgument>, b: seq<SelectorArgument>, k: string)
    ensures WithoutKey(a + b, k) == WithoutKey(a, k) + WithoutKey(b, k)
  {
    if a != [] {
      assert (a + b)[0] == a[0] && (a + b)[1..] == a[1..] + b;
      WithoutKeyAppend(a[1..], b, k);
    } else {
      assert a + b == b;
    }
  }

  /** One argument is kept exactly when its key is not the removed one. */
  lemma WithoutKeyOne(a: SelectorArgument, k: string)
    ensures WithoutKey([a], k) == if a.key != k then [a] else []
  {
    assert [a][1..] == [];
  }

  /** The arguments after the type-order fix: the others in order, then the first `type` argument. */
  function Reordered(args: seq<SelectorArgument>): seq<SelectorArgument>
    requires HasKey(args, "type")
  {
    WithoutKey(args, "type") + [args[FirstKey(args, "type")]]
  }

  /** The bracket part after the type-order fix; none when there is no `type` argument. */
  function TypeOrderArgs(args: seq<SelectorArgument>): (r: Option<string>)
    ensures r.Some? <==> HasKey(args, "type")
  {
    if HasKey(args, "type") then Some("[" + Join(Raws(Reordered(args)), ",") + "]") else None
  }

  /**
   * `createTargetSelectorTypeOrderFix`: the replacement text for the
   * selector at `[start, end)`, or no edit when no selector has exactly
   * that span or it has no `type` argument.
   */
  function TypeOrderFix(line: string, start: nat, end: nat): (r: Option<string>)
    ensures r.Some? <==> var s := FindSelector(ParseSelectors(line), start, end);
              s.Some? && HasKey(s.value.arguments, "type")
    ensures r.Some? ==> var s := FindSelector(ParseSelectors(line), start, end).value;
              && |r.value| >= 2 && r.value[..2] == "@" + [s.letter]
              && (AllBalanced(WithoutKey(s.arguments, "type")) ==>
                    ParseArguments(r.value[2..]) == Reordered(s.arguments))
  {
    match FindSelector(ParseSelectors(line), start, end)
    case None => None
    case Some(s) =>
      match TypeOrderArgs(s.arguments)
      case None => None
      case Some(b) =>
        var text := "@" + [s.letter] + b;
        assert text[2..] == b;
        SelectorArgsParsed(line, s);
        TypeOrderWhenBalanced(s.arguments);
        Some(text)
  }

  /**
   * The type-order fix as intended: offered only when the arguments that
   * move in front of `type` are balanced, so that the rewritten selector
   * parses to the reordered arguments and the warning is resolved.
   */
  function TypeOrderFixGuarded(line: string, start: nat, end: nat): (r: Option<string>)
    ensures r.Some? <==> var s := FindSelector(ParseSelectors(line), start, end);
              s.Some? && HasKey(s.value.arguments, "type") && AllBalanced(WithoutKey(s.value.arguments, "type"))
    ensures r.Some? ==> var s := FindSelector(ParseSelectors(line), start, end).value;
              && |r.value| >= 2 && r.value[..2] == "@" + [s.letter]
              && ParseArguments(r.value[2..]) == Reordered(s.arguments)
              && !Fails(ParseArguments(r.value[2..]), NoType)
              && !Fails(ParseArguments(r.value[2..]), TypeOrder)
  {
    match FindSelector(ParseSelectors(line), start, end)
    case None => None
    case Some(s) =>
      if HasKey(s.arguments, "type") && AllBalanced(WithoutKey(s.arguments, "type")) then
        var text := "@" + [s.letter] + TypeOrderArgs(s.arguments).value;
        assert text[2..] == TypeOrderArgs(s.arguments).value;
        SelectorArgsParsed(line, s);
        TypeOrderResolves(s.arguments);
        Some(text)
      else None
  }

  // ------------------------------------------------------------ round trip

  /** Every argument is written balanced. */
  predicate AllBalanced(args: seq<SelectorArgument>) {
    args == [] || (Balanced(args[0].raw) && AllBalanced(args[1..]))
  }

  lemma {:induction false} BalancedAt(args: seq<SelectorArgument>)
    requires AllBalanced(args)
    ensures forall j :: 0 <= j < |args| ==> Balanced(args[j].raw)
  {
    if args != [] {
      BalancedAt(args[1..]);
      assert forall j :: 1 <= j < |args| ==> args[j] == args[1..][j - 1];
    }
  }

  /** The written forms of rejoinable arguments: all but the last balanced, the last open. */
  lemma RawsShape(args: seq<SelectorArgument>)
    requires |args| >= 1 && Rejoinable(args)
    ensures forall j :: 0 <= j < |Raws(args)| - 1 ==> Balanced(Raws(args)[j])
    ensures Open(Raws(args)[|Raws(args)| - 1])
  {
  }

  lemma ReadBackHead(args: seq<SelectorArgument>)
    requires args != [] && ReadsBack(args[0])
    ensures ArgumentsOf(Raws(args)) == [args[0]] + ArgumentsOf(Raws(args[1..]))
    ensures args == [args[0]] + args[1..]
  {
    assert Raws(args)[0] == args[0].raw;
    assert Raws(args)[1..] == Raws(args[1..]);
  }

  /** Arguments that read back are parsed again from their written forms. */
  lemma {:induction false} ArgumentsOfRaws(args: seq<SelectorArgument>)
    requires AllReadBack(args)
    ensures ArgumentsOf(Raws(args)) == args
  {
    if args != [] {
      ReadBackHead(args);
      ArgumentsOfRaws(args[1..]);
    }
  }

  /** A member of a list that reads back does too. */
  lemma {:induction false} MemberReadsBack(args: seq<SelectorArgument>, a: SelectorArgument)
    requires AllReadBack(args) && a in args
    ensures ReadsBack(a)
  {
    if args[0] != a {
      assert a in args[1..];
      MemberReadsBack(args[1..], a);
    }
  }

  lemma {:induction false} WithoutKeyReadsBack(args: seq<SelectorArgument>, k: string)
    requires AllReadBack(args)
    ensures AllReadBack(WithoutKey(args, k))
  {
    if args != [] {
      WithoutKeyReadsBack(args[1..], k);
      var rest := WithoutKey(args[1..], k);
      if args[0].key != k {
        assert ([args[0]] + rest)[1..] == rest;
      } else {
        assert WithoutKey(args, k) == rest;
      }
    }
  }

  lemma {:induction false} AppendReadsBack(args: seq<SelectorArgument>, a: SelectorArgument)
    requires AllReadBack(args) && ReadsBack(a)
    ensures AllReadBack(args + [a])
  {
    var t := args + [a];
    if args == [] {
      assert t == [a] && t[1..] == [];
    } else {
      AppendReadsBack(args[1..], a);
      Seqs.TailAppend(args, a);
    }
  }

  /** Balanced arguments followed by an open one can be rejoined. */
  lemma AppendRejoinable(args: seq<SelectorArgument>, a: SelectorArgument)
    requires AllBalanced(args) && Open(a.raw)
    ensures Rejoinable(args + [a])
  {
    BalancedAt(args);
    var t := args + [a];
    assert forall j :: 0 <= j < |args| ==> t[j] == args[j];
    assert t[|args|] == a;
  }

  /** An argument that reads back is written with at least one character. */
  lemma RawNonEmpty(a: SelectorArgument)
    requires ReadsBack(a)
    ensures a.raw != []
  {
    ParseArgumentNone(Trim(a.raw));
  }

  /**
   * Writing arguments as parsing produces them as `[a,b,…]` and parsing
   * that text gives the same arguments.
   */
  lemma ArgumentsRoundTrip(args: seq<SelectorArgument>)
    requires |args| >= 1 && AsParsed(args)
    ensures ParseArguments("[" + Join(Raws(args), ",") + "]") == args
  {
    var raws := Raws(args);
    var j := Join(raws, ",");
    RawNonEmpty(args[0]);
    assert |j| >= |raws[0]|;
    RawsShape(args);
    SplitJoin(raws);
    ArgumentsOfRaws(args);
    ParseBracketed(j, raws, args);
  }

  /** A non-empty bracketed text parses as the arguments of its segments. */
  lemma ParseBracketed(j: string, raws: seq<string>, args: seq<SelectorArgument>)
    requires j != [] && SplitArgs(j) == raws && ArgumentsOf(raws) == args
    ensures ParseArguments("[" + j + "]") == args
  {
    var text := "[" + j + "]";
    assert |text| > 2 && Inner(text) == j;
  }

  lemma DistanceKey()
    ensures DistanceRaw[8] == '=' && '=' !in DistanceRaw[..8] && Trim(DistanceRaw[..8]) == "distance"
  {
    assert DistanceRaw[..8] == "distance";
    TrimUntouched("distance");
  }

  lemma DistanceValue()
    ensures Unnegate(Trim(DistanceRaw[9..])) == (false, "0..")
  {
    assert DistanceRaw[9..] == "0..";
    TrimUntouched("0..");
  }

  /** `distance=0..` reads back as the argument the fix means. */
  lemma DistanceReadsBack()
    ensures ReadsBack(DistanceArgument)
  {
    TrimUntouched(DistanceRaw);
    DistanceKey();
    DistanceValue();
    ParseArgumentAt(DistanceRaw, 8);
  }

  lemma DistanceBalanced()
    ensures Balanced(DistanceRaw)
  {
    FlatBalanced(DistanceRaw, |DistanceRaw|);
  }

  /** The no-position fix writes `distance=0..` and the old arguments as one comma list. */
  lemma NoDimensionText(args: seq<SelectorArgument>)
    ensures NoDimensionArgs(args) == "[" + Join(Raws([DistanceArgument] + args), ",") + "]"
  {
    var all := [DistanceArgument] + args;
    assert Raws(all)[0] == DistanceRaw && Raws(all)[1..] == Raws(args);
  }

  lemma PrependKeeps(args: seq<SelectorArgument>)
    requires AsParsed(args)
    ensures AsParsed([DistanceArgument] + args)
  {
    DistanceReadsBack();
    DistanceBalanced();
    var all := [DistanceArgument] + args;
    assert all[1..] == args;
    RejoinableCons(DistanceArgument, args);
  }

  /**
   * After the no-position fix the selector's arguments read back as
   * `distance=0..` followed by the old ones, so the no-position warning
   * is gone.
   */
  lemma NoDimensionResolves(args: seq<SelectorArgument>)
    requires AsParsed(args)
    ensures ParseArguments(NoDimensionArgs(args)) == [DistanceArgument] + args
    ensures NoDimension !in Failed([DistanceArgument] + args)
  {
    var all := [DistanceArgument] + args;
    NoDimensionText(args);
    PrependKeeps(args);
    ArgumentsRoundTrip(all);
    assert all[0].key == "distance";
  }

  /** The reordered arguments are the old ones: the others, then the first `type` argument. */
  lemma ReorderedFrom(args: seq<SelectorArgument>)
    requires HasKey(args, "type")
    ensures forall j :: 0 <= j < |Reordered(args)| ==> Reordered(args)[j] in args
    ensures FirstKey(Reordered(args), "type") == |Reordered(args)| - 1
  {
    var w := WithoutKey(args, "type");
    var r := Reordered(args);
    var t := FirstKey(args, "type");
    assert forall j :: 0 <= j < |w| ==> r[j] == w[j] && w[j] in w;
    assert r[|w|] == args[t];
  }

  /**
   * After the type-order fix the selector's arguments read back as the
   * others in order followed by the `type` argument, which is now last;
   * whether a position is given is unchanged.
   */
  lemma TypeOrderResolves(args: seq<SelectorArgument>)
    requires AsParsed(args) && HasKey(args, "type") && AllBalanced(WithoutKey(args, "type"))
    ensures ParseArguments(TypeOrderArgs(args).value) == Reordered(args)
    ensures NoType !in Failed(Reordered(args)) && TypeOrder !in Failed(Reordered(args))
    ensures HasDimension(Reordered(args)) <==> HasDimension(args)
  {
    var w := WithoutKey(args, "type");
    var r := Reordered(args);
    ReorderedFrom(args);
    var t := args[FirstKey(args, "type")];
    MemberReadsBack(args, t);
    WithoutKeyReadsBack(args, "type");
    AppendReadsBack(w, t);
    AppendRejoinable(w, t);
    ArgumentsRoundTrip(r);
    DimensionKept(args);
  }

  lemma TypeOrderWhenBalanced(args: seq<SelectorArgument>)
    requires AsParsed(args) && HasKey(args, "type")
    ensures AllBalanced(WithoutKey(args, "type")) ==> ParseArguments(TypeOrderArgs(args).value) == Reordered(args)
  {
    if AllBalanced(WithoutKey(args, "type")) {
      TypeOrderResolves(args);
    }
  }

  // ------------------------------------------- the type-order fix as written

  predicate NoSpaces(s: string) {
    forall i :: 0 <= i < |s| ==> !IsSpace(s[i])
  }

  /** `key=value` written without spaces or `!` parses to that key and value. */
  lemma PlainArgument(k: string, v: string)
    requires k != [] && v != [] && NoSpaces(k) && NoSpaces(v) && '=' !in k && v[0] != '!'
    ensures Trim(k + "=" + v) == k + "=" + v
    ensures ParseArgument(k + "=" + v) == Some(SelectorArgument(k, v, false, k + "=" + v))
  {
    var arg := k + "=" + v;
    assert arg[..|k|] == k && arg[|k|] == '=' && arg[|k| + 1..] == v;
    assert arg[0] == k[0] && arg[|arg| - 1] == v[|v| - 1];
    TrimUntouched(k);
    TrimUntouched(v);
    TrimUntouched(arg);
    ParseArgumentAt(arg, |k|);
  }

  /** A comma after an open text whose depth has not returned to 0 does not separate. */
  lemma CommaInside(p: string, q: string)
    requires Open(p) && DepthAt(p, |p|) != 0
    requires ',' !in q && '{' !in q && '}' !in q && '[' !in q && ']' !in q
    ensures Open(p + "," + q)
  {
    var c := p + "," + q;
    assert c == p + ("," + q);
    forall i | 0 <= i < |c| ensures c[i] != ',' || DepthAt(c, i) != 0 {
      if i <= |p| {
        DepthPrefix(p, "," + q, i);
        if i < |p| { assert c[i] == p[i]; }
      } else {
        assert c[i] == q[i - |p| - 1];
        assert q[i - |p| - 1] in q;
      }
    }
  }

  /** A first segment that parses gives the first argument. */
  lemma ArgumentsOfHead(segments: seq<string>, x: SelectorArgument)
    requires segments != [] && ParseArgument(Trim(segments[0])) == Some(x)
    ensures ArgumentsOf(segments) == [x] + ArgumentsOf(segments[1..])
  {
  }

  /** A balanced and an open segment that both parse give both arguments. */
  lemma TwoArguments(a: string, b: string, x: SelectorArgument, y: SelectorArgument)
    requires Balanced(a) && Open(b) && a != []
    requires ParseArgument(Trim(a)) == Some(x) && ParseArgument(Trim(b)) == Some(y)
    ensures ParseArguments("[" + (a + "," + b) + "]") == [x, y]
  {
    var raws := [a, b];
    assert Join(raws, ",") == a + "," + b by {
      assert raws[1..] == [b];
    }
    SplitJoin(raws);
    ArgumentsOfHead(raws, x);
    ArgumentsOfHead(raws[1..], y);
    assert raws[1..][1..] == [];
    ParseBracketed(a + "," + b, raws, [x, y]);
  }

  /** An open segment that parses is the only argument. */
  lemma OneArgument(c: string, x: SelectorArgument)
    requires Open(c) && c != [] && ParseArgument(Trim(c)) == Some(x)
    ensures ParseArguments("[" + c + "]") == [x]
  {
    assert c[..0] == [] && DepthAt(c, 0) == 0;
    SplitArgsLast(c, 0);
    ArgumentsOfHead([c], x);
    assert [c][1..] == [];
    ParseBracketed(c, [c], [x]);
  }

  const TypeText: string := "type" + "=" + "z"
  const OpenText: string := "n" + "=" + "[x"
  const TypeZ: SelectorArgument := SelectorArgument("type", "z", false, TypeText)
  const OpenN: SelectorArgument := SelectorArgument("n", "[x", false, OpenText)

  /** `type=z,n=[x`: the bracket text of `@e[type=z,n=[x]]` without its brackets. */
  const BrokenInner: string := TypeText + "," + OpenText

  /** `n=[x,type=z`: what the fix writes between the brackets. */
  const FixedInner: string := OpenText + "," + TypeText

  lemma SmallTexts()
    ensures NoSpaces("type") && NoSpaces("z") && NoSpaces("n") && NoSpaces("[x")
    ensures ',' !in TypeText && '{' !in TypeText && '}' !in TypeText && '[' !in TypeText && ']' !in TypeText
    ensures Open(OpenText) && DepthAt(OpenText, |OpenText|) == 1
  {
    TypeTextFlat();
    OpenTextDepth();
  }

  lemma TypeTextFlat()
    ensures ',' !in TypeText && '{' !in TypeText && '}' !in TypeText && '[' !in TypeText && ']' !in TypeText
  {
    assert TypeText == "type=z";
  }

  lemma OpenTextDepth()
    ensures Open(OpenText) && DepthAt(OpenText, |OpenText|) == 1
  {
    assert OpenText == "n=[x";
    assert OpenText[0] == 'n' && OpenText[1] == '=' && OpenText[2] == '[' && OpenText[3] == 'x';
    assert DepthAt(OpenText, 1) == 0;
    assert DepthAt(OpenText, 2) == 0;
    assert DepthAt(OpenText, 3) == 1;
    assert DepthAt(OpenText, 4) == 1;
  }

  /**
   * The selector regex stops at the first `]`, so in `@e[type=z,n=[x]]`
   * the bracket text is `[type=z,n=[x]` and it parses to `type=z` and
   * `n=[x`, whose `[` is left open.
   */
  lemma TypeOrderInput()
    ensures ParseArguments("[" + BrokenInner + "]") == [TypeZ, OpenN]
  {
    SmallTexts();
    PlainArgument("type", "z");
    PlainArgument("n", "[x");
    FlatBalanced(TypeText, |TypeText|);
    TwoArguments(TypeText, OpenText, TypeZ, OpenN);
  }

  /** The text the fix writes for `type=z,n=[x`: the open argument first. */
  lemma TypeOrderOutput()
    ensures TypeOrderArgs([TypeZ, OpenN]) == Some("[" + FixedInner + "]")
  {
    var args := [TypeZ, OpenN];
    assert args[0].key == "type" && FirstKey(args, "type") == 0;
    assert args[1..] == [OpenN] && [OpenN][1..] == [];
    assert OpenN.key != "type";
    assert WithoutKey(args, "type") == [OpenN];
    assert Reordered(args) == [OpenN, TypeZ];
    var raws := Raws([OpenN, TypeZ]);
    assert raws == [OpenText, TypeText] && raws[1..] == [TypeText];
    assert Join(raws, ",") == FixedInner;
    assert Join(Raws(Reordered(args)), ",") == FixedInner;
  }

  /** The swallowed value `[x,type=z` has no whitespace. */
  lemma SwallowedValue()
    ensures NoSpaces("[x" + "," + TypeText) && FixedInner == "n" + "=" + ("[x" + "," + TypeText)
  {
    var v := "[x" + "," + TypeText;
    assert v == "[x,type=z";
  }

  /** `n=[x,type=z` is open: its comma is inside the `[`. */
  lemma FixedOpen()
    ensures Open(FixedInner) && FixedInner != []
  {
    SmallTexts();
    CommaInside(OpenText, TypeText);
  }

  /** The argument `n=[x,type=z` has key `n` and value `[x,type=z`. */
  const Swallowed: SelectorArgument := SelectorArgument("n", "[x" + "," + TypeText, false, FixedInner)

  lemma SwallowedParses()
    ensures ParseArgument(Trim(FixedInner)) == Some(Swallowed)
  {
    SmallTexts();
    SwallowedValue();
    PlainArgument("n", "[x" + "," + TypeText);
  }

  /** The rewritten selector's bracket text parses to the single argument `n`. */
  lemma TypeOrderReparse()
    ensures ParseArguments("[" + FixedInner + "]") == [Swallowed]
  {
    FixedOpen();
    SwallowedParses();
    OneArgument(FixedInner, Swallowed);
  }

  /**
   * The type-order fix applied to `@e[type=z,n=[x]]` writes `n=[x` before
   * `type=z`; the open `[` then swallows the comma, and the rewritten
   * selector parses to one argument `n` with no `type` at all.
   */
  lemma TypeOrderFixBreaks()
    ensures var args := ParseArguments("[" + BrokenInner + "]");
            && TypeMisplaced(args)
            && TypeOrderArgs(args) == Some("[" + FixedInner + "]")
            && |ParseArguments(TypeOrderArgs(args).value)| == 1
            && Fails(ParseArguments(TypeOrderArgs(args).value), NoType)
  {
    TypeOrderInput();
    TypeOrderOutput();
    TypeOrderReparse();
    assert [TypeZ, OpenN][0].key == "type" && FirstKey([TypeZ, OpenN], "type") == 0;
  }

  /** Dropping the `type` arguments and appending one keeps every position argument. */
  lemma DimensionKept(args: seq<SelectorArgument>)
    requires HasKey(args, "type")
    ensures HasDimension(Reordered(args)) <==> HasDimension(args)
  {
    var w := WithoutKey(args, "type");
    var r := Reordered(args);
    forall k | k in ["x", "y", "z", "distance"] ensures HasKey(r, k) <==> HasKey(args, k) {
      if HasKey(args, k) {
        var i :| 0 <= i < |args| && args[i].key == k;
        assert args[i] in w;
        var j :| 0 <= j < |w| && w[j] == args[i];
        assert r[j] == w[j];
      }
      if HasKey(r, k) {
        var j :| 0 <= j < |r| && r[j].key == k;
        ReorderedFrom(args);
        assert r[j] in args;
        var i :| 0 <= i < |args| && args[i] == r[j];
      }
    }
  }
}
