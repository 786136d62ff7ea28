/**
 * The `execute as @x … if|unless entity @y` rule: an `as` whose entity is
 * then tested again with `if entity` is reported. For `@s` the two
 * selectors can be merged when they share no key that may only appear
 * once, else the test is to be converted; for any other target the `as`
 * is to be removed. The argument lists are split by `parseArgs`, which
 * the quick fix shares.
 */
module ExecuteAsIfEntity {
  import opened Wrappers
  import opened Text
  import opened Tokens
  import opened Scans

  /** One selector argument: its key and its trimmed text. */
  datatype Arg = Arg(key: string, raw: string)

  /** The key of a segment: the trimmed text before its first `=`, or the whole trimmed segment. */
  function KeyOf(segment: string): string {
    var eq := FindChar(segment, '=', 0);
    if eq == -1 then Trim(segment) else Trim(segment[..eq])
  }

  /** The argument a segment is read as. */
  function ArgOf(segment: string): (a: Arg)
    ensures a.raw == Trim(segment)
    ensures '=' !in segment ==> a.key == a.raw
  {
    Arg(KeyOf(segment), Trim(segment))
  }

  /** The arguments of the segments that are not blank, in order. */
  function ArgsOf(segments: seq<string>): (r: seq<Arg>)
    ensures |r| <= |segments|
  {
    if segments == [] then []
    else (if Trim(segments[0]) != [] then [ArgOf(segments[0])] else []) + ArgsOf(segments[1..])
  }

  /**
   * `parseArgs`: no arguments for an empty text, else one per non-blank
   * segment between depth-0 commas.
   */
  function ParseArgs(s: string): (r: seq<Arg>)
    ensures s == [] ==> r == []
  {
    if s == [] then [] else ArgsOf(SplitArgs(s))
  }

  // ------------------------------------------------------------ reading back

  /** An argument as parsing produces it: not blank, trimmed, and read back from its own text. */
  predicate ReadsBack(a: Arg) {
    a.raw != [] && ArgOf(a.raw) == a
  }

  predicate AllReadBack(args: seq<Arg>) {
    args == [] || (ReadsBack(args[0]) && AllReadBack(args[1..]))
  }

  /** The first `=` of a text whose leading whitespace is cut off moves by the cut. */
  lemma FindEqShift(s: string, a: nat, b: nat)
    requires a <= b <= |s| && forall k :: 0 <= k < a ==> IsSpace(s[k])
    requires forall k :: b <= k < |s| ==> IsSpace(s[k])
    ensures var e := FindChar(s, '=', 0);
            FindChar(s[a..b], '=', 0) == (if e == -1 then -1 else e - a)
  {
    var e := FindChar(s, '=', 0);
    var t := s[a..b];
    var f := FindChar(t, '=', 0);
    if f != -1 {
      assert t[f] == s[a + f];
    }
    if e != -1 {
      assert a <= e < b;
      assert t[e - a] == '=';
    }
  }

  /** Reading a trimmed segment gives the same key as reading the segment. */
  lemma KeyOfTrim(segment: string)
    ensures KeyOf(Trim(segment)) == KeyOf(segment)
  {
    var a := SpaceEnd(segment, 0);
    var b := SpaceStart(segment, a, |segment|);
    var t := Trim(segment);
    assert t == segment[a..b];
    FindEqShift(segment, a, b);
    var e := FindChar(segment, '=', 0);
    if e == -1 {
      TrimIdempotent(segment);
    } else {
      var x := segment[..e];
      assert t[..e - a] == x[a..];
      TrimDropLeading(x, a);
    }
  }

  /** A non-blank segment's argument reads back. */
  lemma ArgOfReadsBack(segment: string)
    requires Trim(segment) != []
    ensures ReadsBack(ArgOf(segment))
  {
    KeyOfTrim(segment);
    TrimIdempotent(segment);
  }

  /** Every parsed argument reads back from its own text. */
  lemma {:induction false} ArgsOfReadBack(segments: seq<string>)
    ensures AllReadBack(ArgsOf(segments))
  {
    if segments != [] {
      ArgsOfReadBack(segments[1..]);
      var rest := ArgsOf(segments[1..]);
      if Trim(segments[0]) != [] {
        ArgOfReadsBack(segments[0]);
        assert ([ArgOf(segments[0])] + rest)[1..] == rest;
      } else {
        assert ArgsOf(segments) == rest;
      }
    }
  }

  lemma ParsedReadBack(s: string)
    ensures AllReadBack(ParseArgs(s))
  {
    if s != [] {
      ArgsOfReadBack(SplitArgs(s));
    }
  }

  /** The arguments' texts, in order. */
  function Raws(args: seq<Arg>): (r: seq<string>)
    ensures |r| == |args| && forall j :: 0 <= j < |args| ==> r[j] == args[j].raw
  {
    seq(|args|, j requires 0 <= j < |args| => args[j].raw)
  }

  /** Every argument is written balanced. */
  predicate AllBalanced(args: seq<Arg>) {
    args == [] || (Balanced(args[0].raw) && AllBalanced(args[1..]))
  }

  lemma {:induction false} BalancedRaws(args: seq<Arg>)
    requires AllBalanced(args)
    ensures forall j :: 0 <= j < |Raws(args)| ==> Balanced(Raws(args)[j])
  {
    if args != [] {
      BalancedRaws(args[1..]);
      assert forall j :: 1 <= j < |args| ==> Raws(args)[j] == Raws(args[1..])[j - 1];
    }
  }

  lemma ReadBackHead(args: seq<Arg>)
    requires args != [] && ReadsBack(args[0])
    ensures ArgsOf(Raws(args)) == [args[0]] + ArgsOf(Raws(args[1..]))
  {
    TrimIdempotent(args[0].raw);
    assert Raws(args)[0] == args[0].raw;
    assert Raws(args)[1..] == Raws(args[1..]);
  }

  lemma {:induction false} ArgsOfRaws(args: seq<Arg>)
    requires AllReadBack(args)
    ensures ArgsOf(Raws(args)) == args
  {
    if args != [] {
      ArgsOfRaws(args[1..]);
      ReadBackHead(args);
      assert args == [args[0]] + args[1..];
    }
  }

  /** Writing arguments out comma-separated and parsing the text gives them back. */
  lemma ParseArgsJoin(args: seq<Arg>)
    requires AllReadBack(args) && AllBalanced(args)
    ensures ParseArgs(Join(Raws(args), ",")) == args
  {
    if args != [] {
      var raws := Raws(args);
      BalancedRaws(args);
      SplitJoin(raws);
      ArgsOfRaws(args);
      assert Join(raws, ",") != [] by {
        JoinHead(raws);
      }
    }
  }

  /** A join of a non-empty first part is not empty. */
  lemma JoinHead(parts: seq<string>)
    requires parts != [] && parts[0] != []
    ensures Join(parts, ",") != []
  {
    if |parts| > 1 {
      assert Join(parts, ",")[0] == parts[0][0];
    }
  }

  // ------------------------------------------------------------ canMerge

  /** Keys that two merged selectors may both carry. */
  const Duplicable: set<string> := {"predicate", "tag", "nbt"}

  predicate HasKey(args: seq<Arg>, k: string) {
    exists j :: 0 <= j < |args| && args[j].key == k
  }

  /** The keys outside `Duplicable`, in order (`asKeys`, `sKeys`). */
  function Restricted(args: seq<Arg>): (r: seq<string>)
    ensures forall k :: k in r <==> k !in Duplicable && HasKey(args, k)
  {
    if args == [] then []
    else
      var rest := Restricted(args[1..]);
      assert forall k :: HasKey(args[1..], k) ==> HasKey(args, k) by {
        forall k | HasKey(args[1..], k) ensures HasKey(args, k) {
          var j :| 0 <= j < |args[1..]| && args[1..][j].key == k;
          assert args[j + 1].key == k;
        }
      }
      assert forall k :: HasKey(args, k) && k != args[0].key ==> HasKey(args[1..], k) by {
        forall k | HasKey(args, k) && k != args[0].key ensures HasKey(args[1..], k) {
          var j :| 0 <= j < |args| && args[j].key == k;
          assert args[1..][j - 1].key == k;
        }
      }
      (if args[0].key !in Duplicable then [args[0].key] else []) + rest
  }

  /** The loop over `asKeys`: no key is among `sKeys`. */
  function NoneShared(asKeys: seq<string>, sKeys: seq<string>): (b: bool)
    ensures b <==> forall k :: k in asKeys ==> k !in sKeys
  {
    if asKeys == [] then true
    else if asKeys[0] in sKeys then false
    else
      assert forall k :: k in asKeys ==> k == asKeys[0] || k in asKeys[1..];
      NoneShared(asKeys[1..], sKeys)
  }

  /** Both argument lists carry a key outside `Duplicable`. */
  predicate Shared(a: seq<Arg>, b: seq<Arg>) {
    exists i, j :: 0 <= i < |a| && 0 <= j < |b| && a[i].key == b[j].key && a[i].key !in Duplicable
  }

  /** `canMerge`: false exactly when the lists share a key that may appear only once. */
  function CanMerge(asArgs: string, sArgs: string): (b: bool)
    ensures b <==> !Shared(ParseArgs(asArgs), ParseArgs(sArgs))
  {
    NoneShared(Restricted(ParseArgs(asArgs)), Restricted(ParseArgs(sArgs)))
  }

  /** Which list is the `as` one does not matter. */
  lemma CanMergeSymmetric(x: string, y: string)
    ensures CanMerge(x, y) == CanMerge(y, x)
  {
  }

  // ------------------------------------------------------------ the rule

  datatype AsIfCode = MergeCode | ConvertCode | RemoveAsCode

  /** A warning on `[start, end)` of line `line`. */
  datatype AsIfDiag = AsIfDiag(code: AsIfCode, line: nat, start: nat, end: nat)

  /** The trimmed line starts with `execute ` and holds both an `as @…` and an `if|unless entity @…`. */
  predicate Applies(line: string) {
    var t := Trim(line);
    StartsWith(t, "execute ") && FirstFrom(t, 0, AsProbe).Some? && FirstFrom(t, 0, IfEntityProbe).Some?
  }

  /** The line holds `execute` when its trim starts with it. */
  lemma ExecuteInLine(line: string)
    requires StartsWith(Trim(line), "execute ")
    ensures IndexOf(line, "execute") != -1
  {
    var a := SpaceEnd(line, 0);
    assert Trim(line)[..7] == line[a..a + 7];
    assert OccursAt(line, "execute", a);
  }

  /**
   * `checkExecuteAsIfEntity`: on a line that applies, a warning from the
   * first `execute` to the end of the line; for an `if entity @s` the
   * merge code when the two argument lists can merge and the convert code
   * when not; for any other tested target the remove-as code.
   */
  function CheckExecuteAsIfEntity(lineIndex: nat, line: string): (r: Option<AsIfDiag>)
    ensures r.Some? <==> Applies(line)
    ensures r.Some? ==> r.value.line == lineIndex && r.value.start == IndexOf(line, "execute") && r.value.end == |line|
    ensures r.Some? ==>
              var t := Trim(line);
              var target := FirstFrom(t, 0, IfEntityProbe).value.sel;
              && (r.value.code == RemoveAsCode <==> target.letter != 's')
              && (r.value.code == MergeCode <==>
                    target.letter == 's' && CanMerge(Inner(FirstFrom(t, 0, AsProbe).value.sel.args), Inner(target.args)))
  {
    var t := Trim(line);
    if !StartsWith(t, "execute ") then None
    else
      var asHit := FirstFrom(t, 0, AsProbe);
      var entityHit := FirstFrom(t, 0, IfEntityProbe);
      if asHit.None? || entityHit.None? then None
      else
        ExecuteInLine(line);
        var start := IndexOf(line, "execute");
        var target := entityHit.value.sel;
        var code :=
          if target.letter != 's' then RemoveAsCode
          else if CanMerge(Inner(asHit.value.sel.args), Inner(target.args)) then MergeCode
          else ConvertCode;
        Some(AsIfDiag(code, lineIndex, start, |line|))
  }
}
