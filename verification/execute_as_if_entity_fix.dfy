/**
 * The merge fix of the `execute as … if|unless entity @s` rule: the
 * arguments of `@s` are folded into the `as` selector (negated for
 * `unless`), `scores` / `advancements` values are merged into one
 * compound, and the `type` arguments are put last.
 */
module ExecuteAsIfEntityFix {
  import opened Text
  import opened Tokens
  import opened ExecuteAsIfEntity

  // ------------------------------------------------------------ negateArg

  /** Take one leading `!` off, or put one on. */
  function Toggle(v: string): (r: string)
    ensures StartsWith(v, "!") ==> "!" + r == v
    ensures !StartsWith(v, "!") ==> r == "!" + v
  {
    if StartsWith(v, "!") then
      assert v == v[..1] + v[1..];
      v[1..]
    else "!" + v
  }

  /** `negateArg`: the value after the first `=` toggles its leading `!`; a text without `=` is kept. */
  function NegateArg(raw: string): (r: string)
    ensures '=' !in raw ==> r == raw
  {
    var eq := FindChar(raw, '=', 0);
    if eq == -1 then raw else raw[..eq] + "=" + Toggle(raw[eq + 1..])
  }

  /** The first `=` of `key + "=" + v` is the one after `key` when `key` has none. */
  lemma FirstEqAfter(key: string, v: string)
    requires '=' !in key
    ensures FindChar(key + "=" + v, '=', 0) == |key|
    ensures (key + "=" + v)[..|key|] == key && (key + "=" + v)[|key| + 1..] == v
  {
    var t := key + "=" + v;
    assert t[|key|] == '=';
    assert forall j :: 0 <= j < |key| ==> t[j] == key[j];
  }

  /** A text with a first `=` at `eq` is its key part, `=` and value. */
  lemma SplitAtEq(raw: string)
    requires FindChar(raw, '=', 0) != -1
    ensures var eq := FindChar(raw, '=', 0);
            '=' !in raw[..eq] && raw == raw[..eq] + "=" + raw[eq + 1..]
  {
    var eq := FindChar(raw, '=', 0);
    assert forall j :: 0 <= j < eq ==> raw[..eq][j] == raw[j];
    assert raw == raw[..eq] + [raw[eq]] + raw[eq + 1..];
  }

  /** Negation keeps the text before the first `=` and toggles the value after it. */
  lemma NegatedParts(raw: string)
    requires '=' in raw
    ensures var eq := FindChar(raw, '=', 0);
            var r := NegateArg(raw);
            0 <= eq && FindChar(r, '=', 0) == eq && r[..eq] == raw[..eq] && r[eq + 1..] == Toggle(raw[eq + 1..])
  {
    var eq := FindChar(raw, '=', 0);
    assert eq != -1 by {
      var k :| 0 <= k < |raw| && raw[k] == '=';
    }
    SplitAtEq(raw);
    FirstEqAfter(raw[..eq], Toggle(raw[eq + 1..]));
  }

  /** Negation keeps the argument's key. */
  lemma NegateKeepsKey(raw: string)
    ensures KeyOf(NegateArg(raw)) == KeyOf(raw)
  {
    if '=' in raw {
      NegatedParts(raw);
    }
  }

  /** Toggling twice gives the value back, unless it starts with `!!`. */
  lemma ToggleTwice(v: string)
    requires !StartsWith(v, "!!")
    ensures Toggle(Toggle(v)) == v
  {
    if StartsWith(v, "!") {
      assert |v| >= 2 ==> v[..2] == [v[0], v[1]] && v[1..][..1] == [v[1]];
      assert v[..1] == [v[0]];
    } else {
      assert ("!" + v)[..1] == "!";
      assert ("!" + v)[1..] == v;
    }
  }

  /** With its first `=` at `eq`, negation rebuilds the text around the toggled value. */
  lemma NegateAt(raw: string, eq: nat)
    requires FindChar(raw, '=', 0) == eq
    ensures NegateArg(raw) == raw[..eq] + "=" + Toggle(raw[eq + 1..])
  {
  }

  /** Negating twice gives the argument back, unless its value starts with `!!`. */
  lemma NegateTwice(raw: string)
    requires '=' in raw ==> !StartsWith(raw[FindChar(raw, '=', 0) + 1..], "!!")
    ensures NegateArg(NegateArg(raw)) == raw
  {
    if '=' in raw {
      var eq := FindChar(raw, '=', 0);
      var v := raw[eq + 1..];
      NegatedParts(raw);
      var r := NegateArg(raw);
      NegateAt(r, eq);
      ToggleTwice(v);
      SplitAtEq(raw);
    }
  }

  /** A value starting with `!!` loses both marks over two negations. */
  lemma NegateTwiceCounterexample()
    ensures NegateArg(NegateArg("a=!!b")) == "a=b"
  {
    FirstEqAfter("a", "!!b");
    assert NegateArg("a=!!b") == "a=!b" by {
      assert ("a" + "=" + "!!b") == "a=!!b";
      assert "!!b"[1..] == "!b";
    }
    FirstEqAfter("a", "!b");
    assert ("a" + "=" + "!b") == "a=!b";
    assert "!b"[1..] == "b";
  }

  // ------------------------------------------------------ mergeComplexValues

  /** A value with its outer braces taken off, when it has both. */
  function Unbrace(v: string): (r: string)
    ensures |r| <= |v|
  {
    if StartsWith(v, "{") && EndsWith(v, "}") then
      assert v[..1][0] == v[0] && v[|v| - 1..][0] == v[|v| - 1];
      Inner(v)
    else v
  }

  /** The compound holding both contents; an empty side is left out. */
  function Compound(inner1: string, inner2: string): (r: string)
    ensures |r| >= 2 && r[0] == '{' && r[|r| - 1] == '}'
  {
    if inner1 == [] then "{" + inner2 + "}"
    else if inner2 == [] then "{" + inner1 + "}"
    else "{" + inner1 + "," + inner2 + "}"
  }

  /**
   * `mergeComplexValues`: the existing key part, `=`, and one compound
   * holding the contents of both values; the existing text when either
   * side has no `=`.
   */
  function MergeComplexValues(existing: string, incoming: string): (r: string)
    ensures '=' !in existing || '=' !in incoming ==> r == existing
  {
    var e1 := FindChar(existing, '=', 0);
    var e2 := FindChar(incoming, '=', 0);
    if e1 == -1 || e2 == -1 then existing
    else Merged(existing, e1, incoming, e2)
  }

  /** The key part of `existing` before `e1`, `=`, and the compound of both values. */
  function Merged(existing: string, e1: nat, incoming: string, e2: nat): string
    requires e1 < |existing| && e2 < |incoming|
  {
    existing[..e1] + "=" + Compound(Unbrace(existing[e1 + 1..]), Unbrace(incoming[e2 + 1..]))
  }

  /** The first `=` of a text with one is found. */
  lemma HasEq(s: string)
    requires '=' in s
    ensures FindChar(s, '=', 0) != -1
  {
    var k :| 0 <= k < |s| && s[k] == '=';
  }

  /** With both first `=` signs found, the merge is the existing key part, `=` and the compound. */
  lemma MergeAt(existing: string, incoming: string, e1: nat, e2: nat)
    requires FindChar(existing, '=', 0) == e1 && FindChar(incoming, '=', 0) == e2
    ensures e1 < |existing| && e2 < |incoming| && MergeComplexValues(existing, incoming) == Merged(existing, e1, incoming, e2)
  {
  }

  /** The merged text keeps the existing key, and its value is one braced compound. */
  lemma MergeShape(existing: string, incoming: string)
    requires '=' in existing && '=' in incoming
    ensures var r := MergeComplexValues(existing, incoming);
            var eq := FindChar(r, '=', 0);
            && KeyOf(r) == KeyOf(existing)
            && eq == FindChar(existing, '=', 0)
            && StartsWith(r[eq + 1..], "{") && EndsWith(r, "}")
  {
    HasEq(existing);
    HasEq(incoming);
    var e1 := FindChar(existing, '=', 0);
    var e2 := FindChar(incoming, '=', 0);
    var key := existing[..e1];
    var c := Compound(Unbrace(existing[e1 + 1..]), Unbrace(incoming[e2 + 1..]));
    assert MergeComplexValues(existing, incoming) == key + "=" + c by {
      MergeAt(existing, incoming, e1, e2);
    }
    assert KeyOf(existing) == Trim(key);
    SplitAtEq(existing);
    KeyEqShape(key, c);
  }

  /** `key=c` for a key without `=` and a braced `c`: the key is read back and the value is braced. */
  lemma KeyEqShape(key: string, c: string)
    requires '=' !in key && |c| >= 2 && c[0] == '{' && c[|c| - 1] == '}'
    ensures var r := key + "=" + c;
            && FindChar(r, '=', 0) == |key| && KeyOf(r) == Trim(key)
            && StartsWith(r[|key| + 1..], "{") && EndsWith(r, "}")
  {
    FirstEqAfter(key, c);
    BracedText(key, c);
  }

  /** `key=c` for a braced `c` has its value braced. */
  lemma BracedText(key: string, c: string)
    requires |c| >= 2 && c[0] == '{' && c[|c| - 1] == '}'
    ensures var r := key + "=" + c;
            StartsWith(r[|key| + 1..], "{") && EndsWith(r, "}")
  {
    var r := key + "=" + c;
    assert r[|key| + 1..] == c;
    assert c[..1] == "{";
    assert r[|r| - 1..] == "}";
  }

  /** The contents of the braced value `{content}`. */
  lemma UnbraceBraced(content: string)
    ensures Unbrace("{" + content + "}") == content
  {
    var v := "{" + content + "}";
    assert v[..1] == "{" && v[|v| - 1..] == "}";
    assert v[1..|v| - 1] == content;
  }

  /** An empty side adds nothing to the compound. */
  lemma CompoundEmpty(x: string)
    ensures Compound(x, []) == "{" + x + "}" && Compound([], x) == "{" + x + "}"
  {
    if x == [] {
      assert "{" + x + "}" == "{" + [] + "}";
    }
  }

  /** Merging an empty compound into a braced argument changes nothing. */
  lemma MergeEmptyIncoming(key: string, content: string, incoming: string, e2: nat)
    requires '=' !in key && FindChar(incoming, '=', 0) == e2
    requires Unbrace(incoming[e2 + 1..]) == []
    ensures var existing := key + "=" + ("{" + content + "}");
            MergeComplexValues(existing, incoming) == existing
  {
    var v := "{" + content + "}";
    var existing := key + "=" + v;
    FirstEqAfter(key, v);
    UnbraceBraced(content);
    CompoundEmpty(content);
    MergeAt(existing, incoming, |key|, e2);
  }

  /** Merging into an argument with an empty compound takes the incoming contents. */
  lemma MergeIntoEmpty(key: string, incoming: string)
    requires '=' !in key && '=' in incoming
    ensures var e2 := FindChar(incoming, '=', 0);
            MergeComplexValues(key + "=" + "{}", incoming) == key + "=" + ("{" + Unbrace(incoming[e2 + 1..]) + "}")
  {
    HasEq(incoming);
    FirstEqAfter(key, "{}");
    MergeAt(key + "=" + "{}", incoming, |key|, FindChar(incoming, '=', 0));
    UnbraceBraced([]);
    assert "{" + [] + "}" == "{}";
    CompoundEmpty(Unbrace(incoming[FindChar(incoming, '=', 0) + 1..]));
  }

  // ------------------------------------------------------- getMergedSelector

  /** Keys whose values are merged rather than kept once. */
  const Complex: set<string> := {"scores", "advancements"}

  /** The text an `@s` argument is added with: negated for `unless`. */
  function FinalRaw(s: Arg, isUnless: bool): string {
    if isUnless then NegateArg(s.raw) else s.raw
  }

  /** `findIndex`: the first argument with key `k`, or -1. */
  function FindKey(c: seq<Arg>, k: string): (r: int)
    ensures r == -1 <==> !HasKey(c, k)
    ensures r != -1 ==> 0 <= r < |c| && c[r].key == k && forall j :: 0 <= j < r ==> c[j].key != k
  {
    if c == [] then -1
    else if c[0].key == k then 0
    else
      var t := FindKey(c[1..], k);
      if t == -1 then
        assert forall j :: 1 <= j < |c| ==> c[j] == c[1..][j - 1];
        -1
      else
        assert forall j :: 1 <= j <= t + 1 ==> c[j] == c[1..][j - 1];
        t + 1
  }

  /** `some(a => a.raw === raw)`. */
  predicate HasRaw(c: seq<Arg>, raw: string) {
    exists j :: 0 <= j < |c| && c[j].raw == raw
  }

  /**
   * `r` keeps the arguments of `c` in place: each keeps its key, and one
   * whose key is not merged is unchanged.
   */
  predicate Keeps(c: seq<Arg>, r: seq<Arg>) {
    |c| <= |r| && forall j :: 0 <= j < |c| ==> r[j].key == c[j].key && (c[j].key !in Complex ==> r[j] == c[j])
  }

  /**
   * One turn of the loop over the `@s` arguments: a key already present
   * is merged when complex and skipped otherwise; a new key is appended
   * unless the same text is already present.
   */
  function Step(c: seq<Arg>, s: Arg, isUnless: bool): (r: seq<Arg>)
    ensures Keeps(c, r) && |r| <= |c| + 1
    ensures |r| == |c| + 1 <==> !HasKey(c, s.key) && !HasRaw(c, FinalRaw(s, isUnless))
    ensures |r| == |c| + 1 ==> r[|c|] == Arg(s.key, FinalRaw(s, isUnless))
    ensures HasKey(c, s.key) && s.key !in Complex ==> r == c
    ensures HasKey(c, s.key) && s.key in Complex ==>
              var i := FindKey(c, s.key);
              && r[i] == Arg(s.key, MergeComplexValues(c[i].raw, FinalRaw(s, isUnless)))
              && forall j :: 0 <= j < |c| && j != i ==> r[j] == c[j]
  {
    var fin := FinalRaw(s, isUnless);
    var i := FindKey(c, s.key);
    if i != -1 then
      if s.key in Complex then c[i := Arg(s.key, MergeComplexValues(c[i].raw, fin))] else c
    else if HasRaw(c, fin) then c
    else c + [Arg(s.key, fin)]
  }

  /** Came from an `@s` argument: its key, and its text too unless the key is merged. */
  predicate FromS(a: Arg, sArgs: seq<Arg>, isUnless: bool) {
    exists s :: s in sArgs && a.key == s.key && (s.key !in Complex ==> a.raw == FinalRaw(s, isUnless))
  }

  /** No key occurs twice. */
  predicate DistinctKeys(c: seq<Arg>) {
    forall i, j :: 0 <= i < j < |c| ==> c[i].key != c[j].key
  }

  lemma StepDistinct(c: seq<Arg>, s: Arg, isUnless: bool)
    requires DistinctKeys(c)
    ensures DistinctKeys(Step(c, s, isUnless))
  {
  }

  lemma KeepsTrans(a: seq<Arg>, b: seq<Arg>, c: seq<Arg>)
    requires Keeps(a, b) && Keeps(b, c)
    ensures Keeps(a, c)
  {
  }

  /** The whole loop: the arguments of `c` stay in place, and every later one came from an `@s` argument. */
  function Combine(c: seq<Arg>, sArgs: seq<Arg>, isUnless: bool): (r: seq<Arg>)
    ensures Keeps(c, r)
    ensures forall j :: |c| <= j < |r| ==> FromS(r[j], sArgs, isUnless)
    decreases |sArgs|
  {
    if sArgs == [] then c
    else
      var mid := Step(c, sArgs[0], isUnless);
      var r := Combine(mid, sArgs[1..], isUnless);
      KeepsTrans(c, mid, r);
      assert forall s :: s in sArgs[1..] ==> s in sArgs;
      assert |mid| == |c| + 1 ==> FromS(r[|c|], sArgs, isUnless) by {
        if |mid| == |c| + 1 {
          assert sArgs[0] in sArgs;
        }
      }
      r
  }

  /** When the `as` keys are distinct, so are the merged ones. */
  lemma {:induction false} CombineDistinct(c: seq<Arg>, sArgs: seq<Arg>, isUnless: bool)
    requires DistinctKeys(c)
    ensures DistinctKeys(Combine(c, sArgs, isUnless))
    decreases |sArgs|
  {
    if sArgs != [] {
      StepDistinct(c, sArgs[0], isUnless);
      CombineDistinct(Step(c, sArgs[0], isUnless), sArgs[1..], isUnless);
    }
  }

  // ------------------------------------------------------- type arguments last

  /** The arguments whose key is not `type`, in order. */
  function Others(c: seq<Arg>): (r: seq<Arg>)
    ensures forall a :: a in r <==> a in c && a.key != "type"
  {
    if c == [] then [] else (if c[0].key != "type" then [c[0]] else []) + Others(c[1..])
  }

  /** The `type` arguments, in order. */
  function Types(c: seq<Arg>): (r: seq<Arg>)
    ensures forall a :: a in r <==> a in c && a.key == "type"
  {
    if c == [] then [] else (if c[0].key == "type" then [c[0]] else []) + Types(c[1..])
  }

  /**
   * The stable sort with `type` arguments after the others: the others
   * in order, then the `type` arguments in order.
   */
  function TypeLast(c: seq<Arg>): (r: seq<Arg>)
    ensures forall i, j :: 0 <= i < j < |r| && r[i].key == "type" ==> r[j].key == "type"
  {
    var o := Others(c);
    var t := Types(c);
    assert forall j :: 0 <= j < |o| ==> o[j] in o;
    assert forall j :: 0 <= j < |t| ==> t[j] in t;
    o + t
  }

  /** The sort neither loses nor adds an argument. */
  lemma {:induction false} TypeLastPermutes(c: seq<Arg>)
    ensures multiset(TypeLast(c)) == multiset(c)
  {
    SplitCounts(c);
    assert multiset(Others(c) + Types(c)) == multiset(Others(c)) + multiset(Types(c));
  }

  /** Every argument goes to exactly one of the two parts. */
  lemma {:induction false} SplitCounts(c: seq<Arg>)
    ensures multiset(Others(c)) + multiset(Types(c)) == multiset(c)
  {
    if c != [] {
      SplitCounts(c[1..]);
      var o := Others(c[1..]);
      var t := Types(c[1..]);
      assert c == [c[0]] + c[1..];
      assert multiset(c) == multiset{c[0]} + multiset(c[1..]);
      if c[0].key != "type" {
        assert Others(c) == [c[0]] + o && Types(c) == t;
        assert multiset(Others(c)) == multiset{c[0]} + multiset(o);
      } else {
        assert Others(c) == o && Types(c) == [c[0]] + t;
        assert multiset(Types(c)) == multiset{c[0]} + multiset(t);
      }
    }
  }

  /** `getMergedSelector`: the base, then the merged arguments in brackets, or no brackets when there are none. */
  function GetMergedSelector(asBase: string, asArgs: seq<Arg>, sArgs: seq<Arg>, isUnless: bool): (r: string)
    ensures Combine(asArgs, sArgs, isUnless) == [] ==> r == asBase
    ensures Combine(asArgs, sArgs, isUnless) != [] ==> StartsWith(r, asBase + "[") && EndsWith(r, "]")
  {
    var raws := Raws(TypeLast(Combine(asArgs, sArgs, isUnless)));
    if raws == [] then asBase
    else
      var r := asBase + "[" + Join(raws, ",") + "]";
      assert r[..|asBase| + 1] == asBase + "[";
      r
  }

  // ------------------------------------------------------------ reading back

  /** Every argument reads back from its own text. */
  predicate EveryReadsBack(c: seq<Arg>) {
    forall a :: a in c ==> ReadsBack(a)
  }

  lemma {:induction false} AllReadBackEvery(args: seq<Arg>)
    ensures AllReadBack(args) <==> EveryReadsBack(args)
  {
    if args != [] {
      AllReadBackEvery(args[1..]);
      assert args == [args[0]] + args[1..];
      assert forall a :: a in args <==> a == args[0] || a in args[1..];
    }
  }

  /** `key=tail` is trimmed when `key` does not start and `tail` does not end with whitespace. */
  lemma EqTextTrimmed(key: string, tail: string)
    requires key == [] || !IsSpace(key[0])
    requires tail == [] || !IsSpace(tail[|tail| - 1])
    ensures Trim(key + "=" + tail) == key + "=" + tail
  {
    var r := key + "=" + tail;
    assert r[0] == (if key == [] then '=' else key[0]);
    assert r[|r| - 1] == (if tail == [] then '=' else tail[|tail| - 1]);
    TrimUntouched(r);
  }

  /** A toggled value ends as the value did, or with the `!` put on. */
  lemma ToggleEnds(v: string)
    requires v == [] || !IsSpace(v[|v| - 1])
    ensures var t := Toggle(v); t == [] || !IsSpace(t[|t| - 1])
  {
    var t := Toggle(v);
    if t != [] {
      if StartsWith(v, "!") {
        assert t[|t| - 1] == v[|v| - 1];
      } else {
        assert t[|t| - 1] == if v == [] then '!' else v[|v| - 1];
      }
    }
  }

  /** A trimmed, non-blank text neither starts nor ends with whitespace. */
  lemma TrimmedEnds(raw: string)
    requires raw != [] && Trim(raw) == raw
    ensures !IsSpace(raw[0]) && !IsSpace(raw[|raw| - 1])
  {
  }

  /** Negating a trimmed, non-blank text gives a trimmed, non-blank text. */
  lemma NegatedTrimmed(raw: string)
    requires raw != [] && Trim(raw) == raw
    ensures NegateArg(raw) != [] && Trim(NegateArg(raw)) == NegateArg(raw)
  {
    if '=' in raw {
      var eq := FindChar(raw, '=', 0);
      NegatedParts(raw);
      TrimmedEnds(raw);
      var k := raw[..eq];
      var v := raw[eq + 1..];
      assert k == [] || k[0] == raw[0];
      assert v == [] || v[|v| - 1] == raw[|raw| - 1];
      ToggleEnds(v);
      NegateAt(raw, eq);
      EqTextTrimmed(k, Toggle(v));
    }
  }

  /** Negating an argument that reads back gives one that reads back, with the same key. */
  lemma NegateReadsBack(a: Arg)
    requires ReadsBack(a)
    ensures ReadsBack(Arg(a.key, NegateArg(a.raw)))
  {
    NegateKeepsKey(a.raw);
    NegatedTrimmed(a.raw);
  }

  /** A merged text is trimmed when the existing one is. */
  lemma MergeTrimmed(existing: string, incoming: string, e1: nat, e2: nat)
    requires existing != [] && Trim(existing) == existing
    requires FindChar(existing, '=', 0) == e1 && FindChar(incoming, '=', 0) == e2
    ensures var r := MergeComplexValues(existing, incoming); r != [] && Trim(r) == r
  {
    MergeAt(existing, incoming, e1, e2);
    TrimmedEnds(existing);
    EqTextTrimmed(existing[..e1], Compound(Unbrace(existing[e1 + 1..]), Unbrace(incoming[e2 + 1..])));
  }

  /** Merging into an argument that reads back gives one that reads back, with the same key. */
  lemma MergeReadsBack(a: Arg, incoming: string)
    requires ReadsBack(a)
    ensures ReadsBack(Arg(a.key, MergeComplexValues(a.raw, incoming)))
  {
    if '=' in a.raw && '=' in incoming {
      HasEq(a.raw);
      HasEq(incoming);
      MergeShape(a.raw, incoming);
      MergeTrimmed(a.raw, incoming, FindChar(a.raw, '=', 0), FindChar(incoming, '=', 0));
    }
  }

  /** The text an `@s` argument is added with reads back with its key. */
  lemma FinalReadsBack(s: Arg, isUnless: bool)
    requires ReadsBack(s)
    ensures ReadsBack(Arg(s.key, FinalRaw(s, isUnless)))
  {
    if isUnless {
      NegateReadsBack(s);
    }
  }

  /**
   * With arguments that read back, a text already present carries its
   * key: so the duplicate-text test never drops an `@s` argument whose
   * key is new.
   */
  lemma StepNoDuplicate(c: seq<Arg>, s: Arg, isUnless: bool)
    requires EveryReadsBack(c) && ReadsBack(s)
    ensures HasRaw(c, FinalRaw(s, isUnless)) ==> HasKey(c, s.key)
  {
    FinalReadsBack(s, isUnless);
    if HasRaw(c, FinalRaw(s, isUnless)) {
      var j :| 0 <= j < |c| && c[j].raw == FinalRaw(s, isUnless);
      assert c[j] in c;
    }
  }

  /** A step keeps every argument reading back and leaves the `@s` argument's key present. */
  lemma StepReadsBack(c: seq<Arg>, s: Arg, isUnless: bool)
    requires EveryReadsBack(c) && ReadsBack(s)
    ensures EveryReadsBack(Step(c, s, isUnless)) && HasKey(Step(c, s, isUnless), s.key)
  {
    var r := Step(c, s, isUnless);
    var fin := FinalRaw(s, isUnless);
    FinalReadsBack(s, isUnless);
    if HasKey(c, s.key) {
      var i := FindKey(c, s.key);
      if s.key in Complex {
        assert c[i] in c;
        MergeReadsBack(c[i], fin);
        assert forall a :: a in r ==> a == r[i] || a in c by {
          forall a | a in r ensures a == r[i] || a in c {
            var j :| 0 <= j < |r| && r[j] == a;
            if j != i {
              assert r[j] == c[j];
            }
          }
        }
      }
      assert r[i].key == s.key;
    } else {
      StepNoDuplicate(c, s, isUnless);
      assert r == c + [Arg(s.key, fin)];
      assert r[|c|].key == s.key;
    }
  }

  lemma KeepsHasKey(c: seq<Arg>, r: seq<Arg>, k: string)
    requires Keeps(c, r) && HasKey(c, k)
    ensures HasKey(r, k)
  {
    var j :| 0 <= j < |c| && c[j].key == k;
    assert r[j].key == k;
  }

  /**
   * With arguments that read back, the merged list reads back and holds
   * the key of every `@s` argument.
   */
  lemma {:induction false} CombineComplete(c: seq<Arg>, sArgs: seq<Arg>, isUnless: bool)
    requires EveryReadsBack(c) && EveryReadsBack(sArgs)
    ensures EveryReadsBack(Combine(c, sArgs, isUnless))
    ensures forall s :: s in sArgs ==> HasKey(Combine(c, sArgs, isUnless), s.key)
    decreases |sArgs|
  {
    if sArgs != [] {
      var s0 := sArgs[0];
      assert s0 in sArgs;
      var mid := Step(c, s0, isUnless);
      StepReadsBack(c, s0, isUnless);
      assert forall s :: s in sArgs[1..] ==> s in sArgs;
      CombineComplete(mid, sArgs[1..], isUnless);
      var r := Combine(mid, sArgs[1..], isUnless);
      assert r == Combine(c, sArgs, isUnless);
      KeepsHasKey(mid, r, s0.key);
      assert forall s :: s in sArgs ==> s == s0 || s in sArgs[1..];
    }
  }

  /** For two parsed argument lists, the merged selector holds the key of every `@s` argument. */
  lemma MergedHasEveryKey(asText: string, sText: string, isUnless: bool)
    ensures var sArgs := ParseArgs(sText);
            forall s :: s in sArgs ==> HasKey(Combine(ParseArgs(asText), sArgs, isUnless), s.key)
  {
    ParsedReadBack(asText);
    ParsedReadBack(sText);
    AllReadBackEvery(ParseArgs(asText));
    AllReadBackEvery(ParseArgs(sText));
    CombineComplete(ParseArgs(asText), ParseArgs(sText), isUnless);
  }

  /** The sorted list holds the same arguments. */
  lemma TypeLastMembers(c: seq<Arg>)
    ensures forall a :: a in TypeLast(c) <==> a in c
  {
  }

  /**
   * Parsing the bracket part of the merged selector gives the merged
   * arguments with `type` last, when every argument is written balanced.
   */
  lemma MergedReparses(asBase: string, asArgs: seq<Arg>, sArgs: seq<Arg>, isUnless: bool)
    requires EveryReadsBack(asArgs) && EveryReadsBack(sArgs)
    requires AllBalanced(TypeLast(Combine(asArgs, sArgs, isUnless)))
    ensures var r := GetMergedSelector(asBase, asArgs, sArgs, isUnless);
            var sorted := TypeLast(Combine(asArgs, sArgs, isUnless));
            sorted != [] ==> ParseArgs(r[|asBase| + 1..|r| - 1]) == sorted
  {
    var combined := Combine(asArgs, sArgs, isUnless);
    var sorted := TypeLast(combined);
    CombineComplete(asArgs, sArgs, isUnless);
    TypeLastMembers(combined);
    AllReadBackEvery(sorted);
    ParseArgsJoin(sorted);
    if sorted != [] {
      var j := Join(Raws(sorted), ",");
      var r := asBase + "[" + j + "]";
      assert r[|asBase| + 1..|r| - 1] == j;
    }
  }
}
