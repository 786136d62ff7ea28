/**
 * The execute-group rule: runs of consecutive `execute` lines that share
 * a prefix of subcommands, which could move into one function called
 * once under that prefix.
 */
module ExecuteGroup {
  import opened Wrappers
  import opened Text
  import opened Seqs
  import opened Patterns
  import opened Tokens

  const SubcommandCount: nat := 13

  /**
   * The `execute` subcommands, in the order of the source's list:
   * `as at positioned rotated facing align anchored in summon on if unless store`.
   */
  function SubcommandAt(k: nat): string
    requires k < SubcommandCount
  {
    if k == 0 then "as" else if k == 1 then "at" else if k == 2 then "positioned"
    else if k == 3 then "rotated" else if k == 4 then "facing" else if k == 5 then "align"
    else if k == 6 then "anchored" else if k == 7 then "in" else if k == 8 then "summon"
    else if k == 9 then "on" else if k == 10 then "if" else if k == 11 then "unless" else "store"
  }

  /** `t` is one of the subcommands from the `k`-th on (the list searched one entry at a time). */
  predicate ListedFrom(t: string, k: nat)
    decreases SubcommandCount - k
  {
    k < SubcommandCount && (SubcommandAt(k) == t || ListedFrom(t, k + 1))
  }

  /** `subcommands.includes(t)`. */
  predicate IsSubcommand(t: string) {
    ListedFrom(t, 0)
  }

  lemma {:induction false} ListedWitness(t: string, k: nat)
    requires ListedFrom(t, k)
    ensures exists j :: k <= j < SubcommandCount && SubcommandAt(j) == t
    decreases SubcommandCount - k
  {
    if SubcommandAt(k) != t {
      ListedWitness(t, k + 1);
    }
  }

  /** What every subcommand has in common: it is not empty, not `run`, and has no colon as its third character. */
  lemma SubcommandShape(t: string)
    requires IsSubcommand(t)
    ensures t != [] && t != "run" && (|t| < 3 || t[2] != ':')
  {
    ListedWitness(t, 0);
    var j :| 0 <= j < SubcommandCount && SubcommandAt(j) == t;
    assert |t| != 3 && t[0] != ':';
  }

  lemma RunNotSubcommand()
    ensures !IsSubcommand("run")
  {
    if IsSubcommand("run") {
      SubcommandShape("run");
    }
  }

  lemma SubcommandThirdNotColon(t: string)
    requires IsSubcommand(t)
    ensures |t| < 3 || t[2] != ':'
  {
    SubcommandShape(t);
  }

  lemma SubcommandNonEmpty(t: string)
    requires IsSubcommand(t)
    ensures t != []
  {
    SubcommandShape(t);
  }

  // -------------------------------------------------- normalizeSelector

  predicate IsTypeArg(a: string) {
    StartsWith(a, "type=") || StartsWith(a, "type!=") || StartsWith(a, "type=!")
  }

  /** Lexicographic order on character codes (standing in for `localeCompare`). */
  predicate LexLe(a: string, b: string)
    decreases |a|
  {
    a == [] || (b != [] && (a[0] < b[0] || (a[0] == b[0] && LexLe(a[1..], b[1..]))))
  }

  lemma {:induction false} LexLeTotal(a: string, b: string)
    ensures LexLe(a, b) || LexLe(b, a)
    decreases |a|
  {
    if a != [] && b != [] && a[0] == b[0] {
      LexLeTotal(a[1..], b[1..]);
    }
  }

  lemma {:induction false} LexLeTrans(a: string, b: string, c: string)
    requires LexLe(a, b) && LexLe(b, c)
    ensures LexLe(a, c)
    decreases |a|
  {
    if a != [] && a[0] == b[0] && b[0] == c[0] {
      LexLeTrans(a[1..], b[1..], c[1..]);
    }
  }

  lemma {:induction false} LexLeAntisym(a: string, b: string)
    requires LexLe(a, b) && LexLe(b, a)
    ensures a == b
    decreases |a|
  {
    if a != [] {
      LexLeAntisym(a[1..], b[1..]);
      assert a == [a[0]] + a[1..] && b == [b[0]] + b[1..];
    }
  }

  /** The comparator of `normalizeSelector`: non-type arguments first, each class in character order. */
  predicate ArgLe(a: string, b: string) {
    if IsTypeArg(a) != IsTypeArg(b) then !IsTypeArg(a) else LexLe(a, b)
  }

  lemma ArgLeTotal(a: string, b: string)
    ensures ArgLe(a, b) || ArgLe(b, a)
  {
    LexLeTotal(a, b);
  }

  lemma ArgLeTrans(a: string, b: string, c: string)
    requires ArgLe(a, b) && ArgLe(b, c)
    ensures ArgLe(a, c)
  {
    if IsTypeArg(a) == IsTypeArg(b) == IsTypeArg(c) {
      LexLeTrans(a, b, c);
    }
  }

  lemma ArgLeAntisym(a: string, b: string)
    requires ArgLe(a, b) && ArgLe(b, a)
    ensures a == b
  {
    LexLeAntisym(a, b);
  }

  predicate SortedArgs(s: seq<string>) {
    forall i, j :: 0 <= i < j < |s| ==> ArgLe(s[i], s[j])
  }

  function InsertArg(x: string, s: seq<string>): (r: seq<string>)
    requires SortedArgs(s)
    ensures SortedArgs(r) && multiset(r) == multiset(s) + multiset{x}
  {
    if s == [] then [x]
    else if ArgLe(x, s[0]) then
      forall j | 0 <= j < |s| ensures ArgLe(x, s[j]) {
        if j > 0 { ArgLeTrans(x, s[0], s[j]); }
      }
      [x] + s
    else
      ArgLeTotal(x, s[0]);
      var rest := InsertArg(x, s[1..]);
      assert s == [s[0]] + s[1..];
      forall j | 0 <= j < |rest| ensures ArgLe(s[0], rest[j]) {
        assert rest[j] in multiset(rest);
        assert rest[j] == x || rest[j] in multiset(s[1..]);
      }
      [s[0]] + rest
  }

  /** The arguments in comparator order: `Array.prototype.sort` with the comparator above. */
  function SortArgs(s: seq<string>): (r: seq<string>)
    ensures SortedArgs(r) && multiset(r) == multiset(s)
  {
    if s == [] then []
    else
      assert s == [s[0]] + s[1..];
      InsertArg(s[0], SortArgs(s[1..]))
  }

  /** A sorted arrangement of a multiset is unique, so the order the arguments came in does not matter. */
  lemma {:induction false} SortedUnique(a: seq<string>, b: seq<string>)
    requires SortedArgs(a) && SortedArgs(b) && multiset(a) == multiset(b)
    ensures a == b
    decreases |a|
  {
    if a == [] {
      assert |multiset(b)| == 0;
    } else {
      assert a[0] in multiset(b);
      assert b[0] in multiset(a);
      SortedHeadLe(b, a[0]);
      SortedHeadLe(a, b[0]);
      ArgLeAntisym(a[0], b[0]);
      assert a == [a[0]] + a[1..] && b == [b[0]] + b[1..];
      assert multiset(a[1..]) == multiset(a) - multiset{a[0]};
      assert multiset(b[1..]) == multiset(b) - multiset{b[0]};
      SortedTail(a);
      SortedTail(b);
      SortedUnique(a[1..], b[1..]);
    }
  }

  lemma SortedHeadLe(s: seq<string>, x: string)
    requires SortedArgs(s) && x in s
    ensures ArgLe(s[0], x)
  {
    var i :| 0 <= i < |s| && s[i] == x;
    if i == 0 { LexLeRefl(x); }
  }

  lemma SortedTail(s: seq<string>)
    requires SortedArgs(s) && s != []
    ensures SortedArgs(s[1..])
  {
    var t := s[1..];
    forall i, j | 0 <= i < j < |t| ensures ArgLe(t[i], t[j]) {
      assert t[i] == s[i + 1] && t[j] == s[j + 1];
    }
  }

  lemma {:induction false} LexLeRefl(a: string)
    ensures LexLe(a, a)
    decreases |a|
  {
    if a != [] { LexLeRefl(a[1..]); }
  }

  /** The trimmed, non-blank argument segments. */
  function TrimmedSegments(segs: seq<string>): (r: seq<string>)
    ensures forall x :: x in r <==> x != [] && exists g :: g in segs && Trim(g) == x
  {
    if segs == [] then []
    else
      var rest := TrimmedSegments(segs[1..]);
      assert forall g :: g in segs <==> g == segs[0] || g in segs[1..];
      (if Trim(segs[0]) != [] then [Trim(segs[0])] else []) + rest
  }

  /** `^(@[aepnrs])(\[([^\]]*)\])?$`: the argument text between the brackets, or None. */
  function SelectorArgsText(sel: string): (r: Option<string>)
  {
    if |sel| >= 2 && sel[0] == '@' && sel[1] in "aepnrs" && |sel| >= 4 && sel[2] == '[' && sel[|sel| - 1] == ']'
       && FindChar(sel[3..|sel| - 1], ']', 0) == -1
    then Some(sel[3..|sel| - 1])
    else None
  }

  /**
   * `normalizeSelector`: a selector with arguments gets them trimmed,
   * blank ones dropped, and sorted with every `type` argument last;
   * anything else is returned unchanged.
   */
  function NormalizeSelector(sel: string): (r: string)
    ensures SelectorArgsText(sel).None? || SelectorArgsText(sel) == Some("") ==> r == sel
    ensures SelectorArgsText(sel).Some? && SelectorArgsText(sel) != Some("") ==>
              exists args :: && multiset(args) == multiset(TrimmedSegments(SplitArgs(SelectorArgsText(sel).value)))
                             && SortedArgs(args)
                             && r == sel[..2] + "[" + Join(args, ",") + "]"
  {
    match SelectorArgsText(sel)
    case None => sel
    case Some(text) =>
      if text == "" then sel
      else sel[..2] + "[" + Join(SortArgs(TrimmedSegments(SplitArgs(text))), ",") + "]"
  }

  /** Type arguments come after all others in sorted order. */
  lemma TypeArgsLast(s: seq<string>, i: nat, j: nat)
    requires SortedArgs(s) && i < |s| && j < |s| && IsTypeArg(s[i]) && !IsTypeArg(s[j])
    ensures j < i
  {
  }

  /** Two selectors on one base whose arguments are a permutation of each other normalise alike. */
  lemma NormalizeIgnoresOrder(a: string, b: string)
    requires SelectorArgsText(a).Some? && SelectorArgsText(b).Some? && a[..2] == b[..2]
    requires SelectorArgsText(a) != Some("") && SelectorArgsText(b) != Some("")
    requires multiset(TrimmedSegments(SplitArgs(SelectorArgsText(a).value)))
          == multiset(TrimmedSegments(SplitArgs(SelectorArgsText(b).value)))
    ensures NormalizeSelector(a) == NormalizeSelector(b)
  {
    var sa := SortArgs(TrimmedSegments(SplitArgs(SelectorArgsText(a).value)));
    var sb := SortArgs(TrimmedSegments(SplitArgs(SelectorArgsText(b).value)));
    SortedUnique(sa, sb);
  }

  /** `tokenizeExecuteNormalized`: the words of the line, selectors normalised. */
  function NormalizedWords(line: string): (r: seq<string>)
    ensures |r| == |Words(line)|
    ensures forall j :: 0 <= j < |r| ==>
              r[j] == (if StartsWith(Words(line)[j], "@") then NormalizeSelector(Words(line)[j]) else Words(line)[j])
  {
    var ws := Words(line);
    seq(|ws|, j requires 0 <= j < |ws| => if StartsWith(ws[j], "@") then NormalizeSelector(ws[j]) else ws[j])
  }

  // ------------------------------------------------------ common prefix

  /** `findLastRunIndex`: the position of the last `run`, or -1. */
  function FindLastRun(tokens: seq<string>): (r: int)
    ensures -1 <= r < |tokens| && (r != -1 ==> tokens[r] == "run")
    ensures forall k :: r < k < |tokens| ==> tokens[k] != "run"
  {
    if tokens == [] then -1
    else if tokens[|tokens| - 1] == "run" then |tokens| - 1
    else FindLastRun(tokens[..|tokens| - 1])
  }

  /** Every token list has the first one's token at `i`. */
  predicate AgreeAt(all: seq<seq<string>>, i: nat)
    requires all != []
  {
    i < |all[0]| && forall t :: t in all ==> i < |t| && t[i] == all[0][i]
  }

  /** Every token list starts with the first one's first `n` tokens. */
  predicate SharePrefix(all: seq<seq<string>>, n: nat)
    requires all != []
  {
    n <= |all[0]| && forall t :: t in all ==> n <= |t| && forall k :: 0 <= k < n ==> t[k] == all[0][k]
  }

  /** The length of the longest prefix shared by all the token lists, counting from `i`. */
  function CommonLength(all: seq<seq<string>>, i: nat): (n: nat)
    requires all != [] && i <= |all[0]| && SharePrefix(all, i)
    ensures i <= n <= |all[0]| && SharePrefix(all, n)
    ensures n == |all[0]| || !AgreeAt(all, n)
    decreases |all[0]| - i
  {
    if i < |all[0]| && AgreeAt(all, i) then
      CommonLength(all, i + 1)
    else i
  }

  predicate ValidNext(t: string) {
    IsSubcommand(t) || t == "run"
  }

  /** `tokens[k]`, undefined past the end. */
  function TokenAt(t: seq<string>, k: nat): Option<string> {
    if k < |t| then Some(t[k]) else None
  }

  /** Every list continues with a subcommand or `run` after `n` tokens. */
  predicate NextValid(all: seq<seq<string>>, n: nat) {
    forall t :: t in all ==> |t| > n && ValidNext(t[n])
  }

  /**
   * The shared `positioned` / `rotated` followed by `as` in every line,
   * with differing selectors after the `as`.
   */
  predicate SplitsAs(all: seq<seq<string>>, n: nat)
    requires all != [] && 0 < n <= |all[0]|
  {
    && (all[0][n - 1] == "positioned" || all[0][n - 1] == "rotated")
    && (forall t :: t in all ==> TokenAt(t, n) == Some("as"))
    && !(forall t :: t in all ==> TokenAt(t, n + 1) == TokenAt(all[0], n + 1))
  }

  /**
   * A length at which a prefix without `run` may stop: at least two
   * tokens, every line goes on with a subcommand or `run`, and a shared
   * `positioned as` / `rotated as` is not followed by differing selectors.
   */
  predicate ValidLength(all: seq<seq<string>>, m: nat)
    requires all != []
  {
    2 <= m <= |all[0]| && NextValid(all, m) && !SplitsAs(all, m)
  }

  datatype Prefix = Prefix(commonPrefix: Option<string>, count: nat)

  function PrefixText(tokens: seq<string>): string {
    Join(tokens, " ") + " "
  }

  /**
   * One round of the shortening loop of `findCommonExecutePrefix` with `n`
   * shared tokens: the answer when the loop stops there, None when it goes
   * on with one token fewer.
   */
  function Stop(all: seq<seq<string>>, n: nat): (r: Option<Prefix>)
    requires all != [] && 0 < n <= |all[0]|
    ensures r.Some? ==> r.value.commonPrefix.Some? && r.value.commonPrefix.value != "" && 1 <= r.value.count <= n
  {
    var common := all[0][..n];
    var lastRun := FindLastRun(common);
    if lastRun != -1 then Some(Prefix(Some(PrefixText(common[..lastRun + 1])), lastRun + 1))
    else if ValidLength(all, n) then Some(Prefix(Some(PrefixText(common)), n))
    else None
  }

  /** The shortening loop, from `n` shared tokens down. */
  function Shorten(all: seq<seq<string>>, n: nat): (r: Prefix)
    requires all != [] && n <= |all[0]|
    ensures r.commonPrefix.None? <==> r.count == 0
    ensures r.commonPrefix.Some? ==> r.commonPrefix.value != ""
    ensures r.count <= n
    decreases n
  {
    if n == 0 then Prefix(None, 0)
    else
      var s := Stop(all, n);
      if s.Some? then s.value else Shorten(all, n - 1)
  }

  lemma ShareShorter(all: seq<seq<string>>, n: nat, m: nat)
    requires all != [] && m <= n && SharePrefix(all, n)
    ensures SharePrefix(all, m)
  {
  }

  /**
   * What a prefix found for `all` promises: it is shared by every line,
   * and unless it ends with `run` its length is a valid stopping length.
   */
  predicate PrefixOk(all: seq<seq<string>>, r: Prefix)
    requires all != []
  {
    r.commonPrefix.Some? ==>
      && 1 <= r.count <= |all[0]| && SharePrefix(all, r.count)
      && r.commonPrefix == Some(PrefixText(all[0][..r.count]))
      && (all[0][r.count - 1] != "run" ==> ValidLength(all, r.count))
  }

  lemma StopOk(all: seq<seq<string>>, n: nat)
    requires all != [] && 0 < n <= |all[0]| && SharePrefix(all, n)
    ensures Stop(all, n).Some? ==> PrefixOk(all, Stop(all, n).value)
  {
    var common := all[0][..n];
    var lastRun := FindLastRun(common);
    if lastRun != -1 {
      var k := lastRun + 1;
      assert common[..k] == all[0][..k];
    }
  }

  /** The loop stops at the first length, counting down, whose round gives a prefix. */
  lemma {:induction false} ShortenStops(all: seq<seq<string>>, n: nat)
    requires all != [] && n <= |all[0]|
    ensures Shorten(all, n).commonPrefix.Some? ==> exists m :: 0 < m <= n && Stop(all, m) == Some(Shorten(all, n))
    decreases n
  {
    if n > 0 && Stop(all, n).None? {
      ShortenStops(all, n - 1);
    }
  }

  /** What the loop settles on is a prefix that keeps those promises. */
  lemma ShortenSound(all: seq<seq<string>>, n: nat)
    requires all != [] && n <= |all[0]| && SharePrefix(all, n)
    ensures PrefixOk(all, Shorten(all, n))
  {
    ShortenStops(all, n);
    if Shorten(all, n).commonPrefix.Some? {
      var m :| 0 < m <= n && Stop(all, m) == Some(Shorten(all, n));
      ShareShorter(all, n, m);
      StopOk(all, m);
    }
  }

  /** `r` is the longest valid stopping length up to `n`, or nothing when there is none. */
  predicate Longest(all: seq<seq<string>>, n: nat, r: Prefix)
    requires all != []
  {
    && (r.commonPrefix.Some? <==> exists m :: 0 < m <= n && ValidLength(all, m))
    && (r.commonPrefix.Some? ==> ValidLength(all, r.count) && r.commonPrefix == Some(PrefixText(all[0][..r.count])))
    && (forall m :: r.count < m <= n ==> !ValidLength(all, m))
  }

  lemma LongestHere(all: seq<seq<string>>, n: nat, r: Prefix)
    requires all != [] && ValidLength(all, n) && r == Prefix(Some(PrefixText(all[0][..n])), n)
    ensures Longest(all, n, r)
  {
  }

  lemma LongestBelow(all: seq<seq<string>>, n: nat, r: Prefix)
    requires all != [] && 0 < n && !ValidLength(all, n) && r.count < n && Longest(all, n - 1, r)
    ensures Longest(all, n, r)
  {
    NoneAbove(all, n, r.count);
    if r.commonPrefix.Some? {
      var m :| 0 < m <= n - 1 && ValidLength(all, m);
      assert 0 < m <= n && ValidLength(all, m);
    } else {
      NoneAbove(all, n, 0);
    }
  }

  /** An invalid length added above invalid ones leaves none valid. */
  lemma NoneAbove(all: seq<seq<string>>, n: nat, c: nat)
    requires all != [] && c < n && !ValidLength(all, n) && forall m :: c < m <= n - 1 ==> !ValidLength(all, m)
    ensures forall m :: c < m <= n ==> !ValidLength(all, m)
  {
    forall m | c < m <= n ensures !ValidLength(all, m) {
      if m != n {
        assert c < m <= n - 1;
      }
    }
  }

  lemma {:induction false} ShortenLongest(all: seq<seq<string>>, n: nat)
    requires all != [] && n <= |all[0]| && forall k :: 0 <= k < n ==> all[0][k] != "run"
    ensures Longest(all, n, Shorten(all, n))
    decreases n
  {
    if n > 0 {
      StopNoRun(all, n);
      if ValidLength(all, n) {
        var r := Prefix(Some(PrefixText(all[0][..n])), n);
        assert Shorten(all, n) == r;
        LongestHere(all, n, r);
      } else {
        ShortenLongest(all, n - 1);
        ShortenDown(all, n);
      }
    } else {
      assert Shorten(all, 0) == Prefix(None, 0);
    }
  }

  /** A round that goes on keeps what the loop settles on one token lower. */
  lemma ShortenDown(all: seq<seq<string>>, n: nat)
    requires all != [] && 0 < n <= |all[0]| && !ValidLength(all, n) && Stop(all, n).None?
    requires Longest(all, n - 1, Shorten(all, n - 1))
    ensures Longest(all, n, Shorten(all, n))
  {
    assert Shorten(all, n) == Shorten(all, n - 1);
    LongestBelow(all, n, Shorten(all, n - 1));
  }

  /** Without a `run`, a round stops exactly at a valid length, keeping all its tokens. */
  lemma StopNoRun(all: seq<seq<string>>, n: nat)
    requires all != [] && 0 < n <= |all[0]| && forall k :: 0 <= k < n ==> all[0][k] != "run"
    ensures Stop(all, n) == if ValidLength(all, n) then Some(Prefix(Some(PrefixText(all[0][..n])), n)) else None
  {
    var common := all[0][..n];
    assert forall k :: 0 <= k < |common| ==> common[k] != "run";
    assert FindLastRun(common) == -1;
  }

  lemma NoRunAt(t: seq<string>, n: nat)
    requires n <= |t| && "run" !in t[..n]
    ensures forall k :: 0 <= k < n ==> t[k] != "run"
  {
    forall k | 0 <= k < n ensures t[k] != "run" {
      assert t[..n][k] == t[k];
    }
  }

  /** A shared `run` ends the prefix right after the last one. */
  lemma ShortenAtRun(all: seq<seq<string>>, n: nat)
    requires all != [] && n <= |all[0]| && "run" in all[0][..n]
    ensures var k := FindLastRun(all[0][..n]) + 1;
            Shorten(all, n) == Prefix(Some(PrefixText(all[0][..k])), k)
  {
    var k := FindLastRun(all[0][..n]) + 1;
    assert all[0][..n][..k] == all[0][..k];
  }

  /**
   * `findCommonExecutePrefix`: the longest shared token prefix, cut back
   * to just after its last `run`; without a `run`, shortened until every
   * line goes on with a subcommand or `run`, at least two tokens remain,
   * and a shared `positioned as` / `rotated as` does not continue with
   * differing selectors.
   */
  function FindCommonPrefix(all: seq<seq<string>>): (r: Prefix)
    ensures all == [] ==> r == Prefix(None, 0)
    ensures r.commonPrefix.None? <==> r.count == 0
    ensures r.commonPrefix.Some? ==> r.commonPrefix.value != ""
    ensures all != [] && "run" !in all[0][..CommonLength(all, 0)] ==> Longest(all, CommonLength(all, 0), r)
  {
    if all == [] then Prefix(None, 0)
    else
      var n := CommonLength(all, 0);
      if "run" in all[0][..n] then Shorten(all, n)
      else NoRunAt(all[0], n); ShortenLongest(all, n); Shorten(all, n)
  }

  /** The prefix found is shared by every line, is cut after the last shared `run`, and otherwise continues validly. */
  lemma CommonPrefixSound(all: seq<seq<string>>)
    ensures FindCommonPrefix(all).commonPrefix.Some? ==> all != [] && PrefixOk(all, FindCommonPrefix(all))
    ensures all != [] && "run" in all[0][..CommonLength(all, 0)] ==>
              FindCommonPrefix(all).count == FindLastRun(all[0][..CommonLength(all, 0)]) + 1
  {
    if all != [] {
      var n := CommonLength(all, 0);
      ShortenSound(all, n);
      if "run" in all[0][..n] { ShortenAtRun(all, n); }
    }
  }

  /** Selectors and one-letter words are neither subcommands nor `run`. */
  lemma NotSubcommandAt(t: string)
    requires (t != [] && t[0] == '@') || |t| == 1
    ensures !IsSubcommand(t) && !ValidNext(t)
  {
    if IsSubcommand(t) {
      ListedWitness(t, 0);
    }
  }

  const PositionedLines: seq<seq<string>> := [["at", "positioned", "as", "@a", "say"], ["at", "positioned", "as", "@b", "say"]]

  lemma PositionedCommon()
    ensures CommonLength(PositionedLines, 0) == 3
    ensures PositionedLines[0][..3] == ["at", "positioned", "as"]
  {
    var all := PositionedLines;
    assert AgreeAt(all, 0) && AgreeAt(all, 1) && AgreeAt(all, 2) && !AgreeAt(all, 3);
  }

  lemma PositionedNoLength()
    ensures forall m :: 0 < m <= 3 ==> !ValidLength(PositionedLines, m)
  {
    forall m | 0 < m <= 3 ensures !ValidLength(PositionedLines, m) {
      if m == 3 {
        PositionedNotThree();
      } else if m == 2 {
        PositionedNotTwo();
      }
    }
  }

  lemma PositionedNotThree()
    ensures !ValidLength(PositionedLines, 3)
  {
    NotSubcommandAt("@a");
    assert PositionedLines[0][3] == "@a";
  }

  lemma PositionedNotTwo()
    ensures !ValidLength(PositionedLines, 2)
  {
    var all := PositionedLines;
    assert all[1] in all && TokenAt(all[1], 3) == Some("@b") != TokenAt(all[0], 3);
    assert SplitsAs(all, 2);
  }

  /**
   * A shared `positioned as` before differing selectors is not grouped:
   * the lines share `at positioned as`, the selectors after it are no
   * subcommand, and cutting before `as` would split `positioned as @a`.
   */
  lemma PositionedAsRefused()
    ensures CommonLength(PositionedLines, 0) == 3
    ensures FindCommonPrefix(PositionedLines) == Prefix(None, 0)
  {
    var all := PositionedLines;
    PositionedCommon();
    assert "run" !in all[0][..3];
    PositionedNoLength();
    var r := FindCommonPrefix(all);
    assert Longest(all, 3, r);
  }

  const ChainLine: seq<string> := ["as", "@a", "at", "@s", "if", "x"]

  /** A single line keeps the longest prefix that goes on with a subcommand: `as @a at @s`, before `if`. */
  lemma LongestKept()
    ensures FindCommonPrefix([ChainLine]).count == 4
  {
    var all := [ChainLine];
    assert CommonLength(all, 0) == 6;
    assert all[0][..6] == ChainLine;
    assert "run" !in ChainLine;
    assert IsSubcommand("if");
    assert !NextValid(all, 6);
    NotSubcommandAt("x");
    assert !NextValid(all, 5);
    NotSubcommandAt("@s");
    assert !SplitsAs(all, 4);
    assert ValidLength(all, 4);
    var r := FindCommonPrefix(all);
    assert Longest(all, 6, r);
  }

  // ------------------------------------------------------------ groups

  datatype ExecuteLine = ExecuteLine(lineIndex: nat, fullLine: string, tokens: seq<string>)

  datatype Group = Group(commonPrefix: string, suffixes: seq<string>, lineIndices: seq<nat>, startLine: nat, endLine: nat)

  /**
   * What a line keeps after the shared prefix: its remaining tokens without
   * a leading `run`, or, when they start with a subcommand instead, those
   * tokens as a command of their own behind `execute `.
   */
  function Suffix(tokens: seq<string>, count: nat): string
  {
    var st := if count < |tokens| then tokens[count..] else [];
    var hadRun := st != [] && st[0] == "run";
    var rest := if hadRun then st[1..] else st;
    var suffix := Join(rest, " ");
    if suffix == "" then ""
    else if !hadRun && IsSubcommand(rest[0]) then "execute " + suffix
    else suffix
  }

  /**
   * The suffix is the rest of the line after the prefix, less a leading
   * `run`; a rest that begins with a subcommand becomes an `execute`
   * command of its own; nothing is left of a line the prefix covers.
   */
  lemma SuffixCases(tokens: seq<string>, count: nat)
    ensures count >= |tokens| ==> Suffix(tokens, count) == ""
    ensures count < |tokens| && tokens[count] == "run" ==> Suffix(tokens, count) == Join(tokens[count + 1..], " ")
    ensures count < |tokens| && tokens[count] != "run" && !IsSubcommand(tokens[count]) ==>
              Suffix(tokens, count) == Join(tokens[count..], " ")
    ensures count < |tokens| && IsSubcommand(tokens[count]) ==>
              Suffix(tokens, count) == "execute " + Join(tokens[count..], " ")
  {
    if count < |tokens| && IsSubcommand(tokens[count]) {
      RunNotSubcommand();
      SubcommandNonEmpty(tokens[count]);
      JoinNonEmpty(tokens[count..]);
    }
  }

  lemma JoinNonEmpty(ts: seq<string>)
    requires ts != [] && ts[0] != []
    ensures Join(ts, " ") != []
  {
    if |ts| > 1 {
      assert Join(ts, " ") == ts[0] + " " + Join(ts[1..], " ");
    }
  }

  /** A line of a group is its prefix followed by its remaining tokens. */
  lemma PrefixRestores(tokens: seq<string>, count: nat)
    requires 0 < count < |tokens|
    ensures Join(tokens, " ") == PrefixText(tokens[..count]) + Join(tokens[count..], " ")
  {
    JoinSplit(tokens, count, " ");
  }

  /** The token lists of the lines, in order. */
  function TokensOf(batch: seq<ExecuteLine>): seq<seq<string>> {
    if batch == [] then [] else [batch[0].tokens] + TokensOf(batch[1..])
  }

  function IndicesOf(batch: seq<ExecuteLine>): (r: seq<nat>)
    ensures |r| == |batch| && forall j :: 0 <= j < |batch| ==> r[j] == batch[j].lineIndex
  {
    seq(|batch|, j requires 0 <= j < |batch| => batch[j].lineIndex)
  }

  /** The group of the batch under the prefix `p`: a suffix per line, and its line numbers. */
  function MakeGroup(batch: seq<ExecuteLine>, p: Prefix): (g: Group)
    requires |batch| >= 2 && p.commonPrefix.Some?
    ensures g.lineIndices == IndicesOf(batch) && |g.suffixes| == |batch|
    ensures g.commonPrefix == p.commonPrefix.value
    ensures forall j :: 0 <= j < |batch| ==> g.suffixes[j] == Suffix(batch[j].tokens, p.count)
    ensures g.startLine == batch[0].lineIndex && g.endLine == batch[|batch| - 1].lineIndex
  {
    Group(p.commonPrefix.value,
          seq(|batch|, j requires 0 <= j < |batch| => Suffix(batch[j].tokens, p.count)),
          IndicesOf(batch), batch[0].lineIndex, batch[|batch| - 1].lineIndex)
  }

  /** `createGroupFromLines`: the group of two or more lines, when they share a prefix. */
  function CreateGroup(batch: seq<ExecuteLine>): (r: Option<Group>)
    ensures r.Some? <==> |batch| >= 2 && FindCommonPrefix(TokensOf(batch)).commonPrefix.Some?
    ensures r.Some? ==> r.value == MakeGroup(batch, FindCommonPrefix(TokensOf(batch)))
  {
    if |batch| < 2 then None
    else
      var p := FindCommonPrefix(TokensOf(batch));
      if p.commonPrefix.None? || p.commonPrefix.value == "" then None
      else Some(MakeGroup(batch, p))
  }

  predicate Increasing(s: seq<nat>) {
    forall j, k :: 0 <= j < k < |s| ==> s[j] < s[k]
  }

  /** A well-formed group: two or more increasing lines, first and last at its ends, a suffix per line. */
  predicate GroupShape(g: Group) {
    && |g.lineIndices| >= 2 && |g.suffixes| == |g.lineIndices|
    && Increasing(g.lineIndices)
    && g.startLine == g.lineIndices[0] && g.endLine == g.lineIndices[|g.lineIndices| - 1]
  }

  predicate AllShaped(gs: seq<Group>) {
    forall j :: 0 <= j < |gs| ==> GroupShape(gs[j])
  }

  /** Each group ends before the next one starts. */
  predicate Ordered(gs: seq<Group>) {
    forall j, k :: 0 <= j < k < |gs| ==> gs[j].endLine < gs[k].startLine
  }

  /** Every group lies within `[lo, hi]`. */
  predicate Within(gs: seq<Group>, lo: nat, hi: nat) {
    forall j :: 0 <= j < |gs| ==> lo <= gs[j].startLine && gs[j].endLine <= hi
  }

  predicate LinesIncreasing(lines: seq<ExecuteLine>) {
    forall j, k :: 0 <= j < k < |lines| ==> lines[j].lineIndex < lines[k].lineIndex
  }

  /** The group of a finished batch, if it has two lines or more. */
  function Emit(batch: seq<ExecuteLine>): (r: seq<Group>)
    requires |batch| >= 1 && LinesIncreasing(batch)
    ensures |r| <= 1 && AllShaped(r) && Within(r, batch[0].lineIndex, batch[|batch| - 1].lineIndex)
  {
    if |batch| < 2 then []
    else match CreateGroup(batch)
      case None => []
      case Some(g) =>
        MadeShaped(batch, FindCommonPrefix(TokensOf(batch)));
        [g]
  }

  lemma MadeShaped(batch: seq<ExecuteLine>, p: Prefix)
    requires LinesIncreasing(batch) && |batch| >= 2 && p.commonPrefix.Some?
    ensures GroupShape(MakeGroup(batch, p))
  {
  }

  /**
   * The batching loop of `extractGroupsFromBlock` at line `i`; the current
   * batch is `lines[a..i]`.
   */
  /** Well-formed groups, in order, between `lines[a]` and `lines[i - 1]`. */
  predicate EmitOk(lines: seq<ExecuteLine>, a: nat, i: nat, e: seq<Group>)
    requires a < i <= |lines|
  {
    AllShaped(e) && Ordered(e) && Within(e, lines[a].lineIndex, lines[i - 1].lineIndex)
  }

  /** The group of the batch `lines[a..i]`, if any. */
  function EmitRange(lines: seq<ExecuteLine>, a: nat, i: nat): (r: seq<Group>)
    requires a < i <= |lines| && LinesIncreasing(lines)
    ensures EmitOk(lines, a, i, r)
  {
    var batch := lines[a..i];
    assert batch[0] == lines[a] && batch[|batch| - 1] == lines[i - 1];
    SliceIncreasing(lines, a, i);
    Emit(batch)
  }

  lemma SliceIncreasing(lines: seq<ExecuteLine>, a: nat, i: nat)
    requires a <= i <= |lines| && LinesIncreasing(lines)
    ensures LinesIncreasing(lines[a..i])
  {
    var b := lines[a..i];
    forall j, k | 0 <= j < k < |b| ensures b[j].lineIndex < b[k].lineIndex {
      assert b[j] == lines[a + j] && b[k] == lines[a + k];
    }
  }

  /** Groups gathered before the batch starting at `lines[a]`: well formed, in order, all ending before it. */
  predicate AccOk(lines: seq<ExecuteLine>, a: nat, acc: seq<Group>)
    requires a < |lines|
  {
    AllShaped(acc) && Ordered(acc) && forall j :: 0 <= j < |acc| ==> acc[j].endLine < lines[a].lineIndex
  }

  /** The final groups keep `acc` in front, and the ones added lie between `lines[a]` and the last line. */
  predicate BatchOk(lines: seq<ExecuteLine>, a: nat, acc: seq<Group>, r: seq<Group>)
    requires a < |lines|
  {
    && AllShaped(r) && Ordered(r)
    && |acc| <= |r| && r[..|acc|] == acc
    && Within(r[|acc|..], lines[a].lineIndex, lines[|lines| - 1].lineIndex)
  }

  function Batches(lines: seq<ExecuteLine>, a: nat, i: nat, acc: seq<Group>): (r: seq<Group>)
    requires a < i <= |lines| && LinesIncreasing(lines) && AccOk(lines, a, acc)
    ensures BatchOk(lines, a, acc, r)
    decreases |lines| - i
  {
    if i == |lines| then
      var e := EmitRange(lines, a, i);
      FinishOk(lines, a, acc, e);
      acc + e
    else if FindCommonPrefix(TokensOf(lines[a..i] + [lines[i]])).commonPrefix.Some? then
      Batches(lines, a, i + 1, acc)
    else
      var e := EmitRange(lines, a, i);
      FlushOk(lines, a, i, acc, e);
      var r := Batches(lines, i, i + 1, acc + e);
      FlushThenOk(lines, a, i, acc, e, r);
      r
  }

  lemma FinishOk(lines: seq<ExecuteLine>, a: nat, acc: seq<Group>, e: seq<Group>)
    requires a < |lines| && LinesIncreasing(lines) && AccOk(lines, a, acc) && EmitOk(lines, a, |lines|, e)
    ensures BatchOk(lines, a, acc, acc + e)
  {
    IndexOrder(lines, a, |lines| - 1);
    AppendGroups(acc, e, lines[a].lineIndex, lines[|lines| - 1].lineIndex);
  }

  lemma FlushOk(lines: seq<ExecuteLine>, a: nat, i: nat, acc: seq<Group>, e: seq<Group>)
    requires a < i < |lines| && LinesIncreasing(lines) && AccOk(lines, a, acc) && EmitOk(lines, a, i, e)
    ensures AccOk(lines, i, acc + e)
  {
    IndexOrder(lines, a, i - 1);
    AppendGroups(acc, e, lines[a].lineIndex, lines[i - 1].lineIndex);
    assert lines[i - 1].lineIndex < lines[i].lineIndex;
  }

  lemma FlushThenOk(lines: seq<ExecuteLine>, a: nat, i: nat, acc: seq<Group>, e: seq<Group>, r: seq<Group>)
    requires a < i < |lines| && LinesIncreasing(lines) && EmitOk(lines, a, i, e)
    requires BatchOk(lines, i, acc + e, r)
    ensures BatchOk(lines, a, acc, r)
  {
    IndexOrder(lines, i - 1, |lines| - 1);
    IndexOrder(lines, a, i);
    TailWithin(acc, e, r, lines[a].lineIndex, lines[i - 1].lineIndex, lines[i].lineIndex, lines[|lines| - 1].lineIndex);
  }

  lemma IndexOrder(lines: seq<ExecuteLine>, j: nat, k: nat)
    requires j <= k < |lines| && LinesIncreasing(lines)
    ensures lines[j].lineIndex <= lines[k].lineIndex
  {
    if j < k { assert lines[j].lineIndex < lines[k].lineIndex; }
  }

  /** Groups appended after earlier ones that end before `lo`, lying within `[lo, hi]`, keep the order. */
  lemma AppendGroups(acc: seq<Group>, e: seq<Group>, lo: nat, hi: nat)
    requires AllShaped(acc) && Ordered(acc) && (forall j :: 0 <= j < |acc| ==> acc[j].endLine < lo)
    requires AllShaped(e) && Ordered(e) && Within(e, lo, hi) && lo <= hi
    ensures AllShaped(acc + e) && Ordered(acc + e)
    ensures (acc + e)[..|acc|] == acc && (acc + e)[|acc|..] == e
    ensures forall j :: 0 <= j < |acc + e| ==> (acc + e)[j].endLine <= hi
  {
  }

  /** The groups after `acc` lie within `[lo, hi]` when `e` does and the ones after `acc + e` do from `next` on. */
  lemma TailWithin(acc: seq<Group>, e: seq<Group>, r: seq<Group>, lo: nat, mid: nat, next: nat, hi: nat)
    requires |acc + e| <= |r| && r[..|acc + e|] == acc + e
    requires Within(e, lo, mid) && Within(r[|acc + e|..], next, hi) && lo <= next && mid <= hi
    ensures r[..|acc|] == acc && Within(r[|acc|..], lo, hi)
  {
    assert r[..|acc|] == r[..|acc + e|][..|acc|];
    var tail := r[|acc|..];
    forall j | 0 <= j < |tail| ensures lo <= tail[j].startLine && tail[j].endLine <= hi {
      if j < |e| {
        assert tail[j] == (acc + e)[|acc| + j] == e[j];
      } else {
        assert tail[j] == r[|acc + e|..][j - |e|];
      }
    }
  }

  /** `extractGroupsFromBlock`: the groups of one block of consecutive `execute` lines. */
  function ExtractGroups(lines: seq<ExecuteLine>): (r: seq<Group>)
    requires LinesIncreasing(lines)
    ensures AllShaped(r) && Ordered(r)
    ensures lines != [] ==> Within(r, lines[0].lineIndex, lines[|lines| - 1].lineIndex)
    ensures |lines| < 2 ==> r == []
  {
    if |lines| < 2 then []
    else
      var r := Batches(lines, 0, 1, []);
      assert r[0..] == r;
      r
  }

  // ------------------------------------------------------------- blocks

  /** Lines a block carries on across: blank, comment or `execute `. */
  predicate Passable(line: string) {
    var t := Trim(line);
    Skipped(t) || StartsWith(t, "execute ")
  }

  predicate AllPassable(lines: seq<string>, lo: nat, hi: nat)
    requires hi <= |lines|
  {
    forall j :: lo <= j < hi ==> Passable(lines[j])
  }

  /** The pending block: increasing `execute ` lines before `i`, with nothing but passable lines since its start. */
  predicate BlockOk(lines: seq<string>, block: seq<ExecuteLine>, i: nat)
    requires i <= |lines|
  {
    && LinesIncreasing(block)
    && (forall j :: 0 <= j < |block| ==> block[j].lineIndex < i && StartsWith(Trim(lines[block[j].lineIndex]), "execute "))
    && (block != [] ==> AllPassable(lines, block[0].lineIndex, i))
  }

  /** Each group lies within the lines, and every line in its span is blank, a comment or an `execute ` line. */
  predicate GroupsInside(lines: seq<string>, gs: seq<Group>) {
    forall j :: 0 <= j < |gs| ==>
      && gs[j].endLine < |lines| && AllPassable(lines, gs[j].startLine, gs[j].endLine + 1)
  }

  function Flush(block: seq<ExecuteLine>): (r: seq<Group>)
    requires LinesIncreasing(block)
    ensures AllShaped(r) && Ordered(r)
    ensures block != [] ==> Within(r, block[0].lineIndex, block[|block| - 1].lineIndex)
    ensures block == [] ==> r == []
  {
    if |block| >= 2 then ExtractGroups(block) else []
  }

  /** Groups within `[lo, hi]` where every line from `lo` up to `i` is passable lie inside the lines. */
  lemma InsideWhenPassable(lines: seq<string>, e: seq<Group>, lo: nat, hi: nat, i: nat)
    requires Within(e, lo, hi) && hi < i <= |lines| && AllPassable(lines, lo, i)
    ensures GroupsInside(lines, e)
  {
  }

  lemma InsideAppend(lines: seq<string>, a: seq<Group>, b: seq<Group>)
    requires GroupsInside(lines, a) && GroupsInside(lines, b)
    ensures GroupsInside(lines, a + b)
  {
    forall j | 0 <= j < |a + b|
      ensures (a + b)[j].endLine < |lines| && AllPassable(lines, (a + b)[j].startLine, (a + b)[j].endLine + 1)
    {
      if j >= |a| { assert (a + b)[j] == b[j - |a|]; }
    }
  }

  /** The state of the line loop of `findExecuteGroups` before line `i`. */
  predicate ScanInv(lines: seq<string>, i: nat, block: seq<ExecuteLine>, acc: seq<Group>)
    requires i <= |lines|
  {
    && BlockOk(lines, block, i)
    && AllShaped(acc) && Ordered(acc) && GroupsInside(lines, acc)
    && forall j :: 0 <= j < |acc| ==> acc[j].endLine < (if block == [] then i else block[0].lineIndex)
  }

  /** The groups so far, followed by those of the pending block, which ends before line `i`. */
  function Close(lines: seq<string>, i: nat, block: seq<ExecuteLine>, acc: seq<Group>): (r: seq<Group>)
    requires i <= |lines| && ScanInv(lines, i, block, acc)
    ensures AllShaped(r) && Ordered(r) && GroupsInside(lines, r)
    ensures forall j :: 0 <= j < |r| ==> r[j].endLine < i
  {
    var e := Flush(block);
    if block == [] then
      assert acc + e == acc;
      acc
    else
      var lo := block[0].lineIndex;
      var hi := block[|block| - 1].lineIndex;
      AppendGroups(acc, e, lo, hi);
      InsideWhenPassable(lines, e, lo, hi, i);
      InsideAppend(lines, acc, e);
      acc + e
  }

  function Scan(lines: seq<string>, i: nat, block: seq<ExecuteLine>, acc: seq<Group>): (r: seq<Group>)
    requires i <= |lines| && ScanInv(lines, i, block, acc)
    ensures AllShaped(r) && Ordered(r) && GroupsInside(lines, r)
    decreases |lines| - i
  {
    if i == |lines| then Close(lines, i, block, acc)
    else
      var t := Trim(lines[i]);
      if Skipped(t) then
        PassInv(lines, i, block, acc);
        Scan(lines, i + 1, block, acc)
      else if StartsWith(t, "execute ") then
        var line := ExecuteLine(i, t, NormalizedWords(t));
        TakeInv(lines, i, block, acc, line);
        Scan(lines, i + 1, block + [line], acc)
      else
        var closed := Close(lines, i, block, acc);
        CloseInv(lines, i, closed);
        Scan(lines, i + 1, [], closed)
  }

  lemma PassInv(lines: seq<string>, i: nat, block: seq<ExecuteLine>, acc: seq<Group>)
    requires i < |lines| && ScanInv(lines, i, block, acc) && Skipped(Trim(lines[i]))
    ensures ScanInv(lines, i + 1, block, acc)
  {
    assert Passable(lines[i]);
  }

  lemma TakeInv(lines: seq<string>, i: nat, block: seq<ExecuteLine>, acc: seq<Group>, line: ExecuteLine)
    requires i < |lines| && ScanInv(lines, i, block, acc) && line.lineIndex == i
    requires StartsWith(Trim(lines[i]), "execute ")
    ensures ScanInv(lines, i + 1, block + [line], acc)
  {
    BlockTakes(lines, block, i, line);
    assert (block + [line])[0] == (if block == [] then line else block[0]);
  }

  lemma CloseInv(lines: seq<string>, i: nat, closed: seq<Group>)
    requires i < |lines| && AllShaped(closed) && Ordered(closed) && GroupsInside(lines, closed)
    requires forall j :: 0 <= j < |closed| ==> closed[j].endLine < i
    ensures ScanInv(lines, i + 1, [], closed)
  {
  }

  lemma BlockTakes(lines: seq<string>, block: seq<ExecuteLine>, i: nat, line: ExecuteLine)
    requires i < |lines| && BlockOk(lines, block, i) && line.lineIndex == i
    requires StartsWith(Trim(lines[i]), "execute ")
    ensures BlockOk(lines, block + [line], i + 1)
  {
    var b := block + [line];
    IncreasingSnoc(block, line);
    forall j | 0 <= j < |b| ensures b[j].lineIndex < i + 1 && StartsWith(Trim(lines[b[j].lineIndex]), "execute ") {
      if j < |block| { assert b[j] == block[j]; }
    }
    if block != [] {
      assert b[0] == block[0];
      PassableExtend(lines, block[0].lineIndex, i);
    } else {
      PassableExtend(lines, i, i);
    }
  }

  lemma IncreasingSnoc(block: seq<ExecuteLine>, line: ExecuteLine)
    requires LinesIncreasing(block)
    requires forall j :: 0 <= j < |block| ==> block[j].lineIndex < line.lineIndex
    ensures LinesIncreasing(block + [line])
  {
    var b := block + [line];
    forall j, k | 0 <= j < k < |b| ensures b[j].lineIndex < b[k].lineIndex {
      assert b[j] == block[j];
      if k < |block| { assert b[k] == block[k]; }
    }
  }

  lemma PassableExtend(lines: seq<string>, lo: nat, i: nat)
    requires i < |lines| && AllPassable(lines, lo, i) && StartsWith(Trim(lines[i]), "execute ")
    ensures AllPassable(lines, lo, i + 1)
  {
    assert Passable(lines[i]);
  }

  /**
   * `findExecuteGroups`: the groups of every block of consecutive
   * `execute ` lines (blank lines and comments do not end a block).
   * Every group has two or more increasing lines, groups come in line
   * order without overlapping, and no group spans a line other than a
   * blank line, a comment or an `execute ` line.
   */
  function FindExecuteGroups(lines: seq<string>): (r: seq<Group>)
    ensures AllShaped(r) && Ordered(r) && GroupsInside(lines, r)
  {
    Scan(lines, 0, [], [])
  }

  datatype GroupDiag = GroupDiag(startLine: nat, endLine: nat, endChar: nat)

  /** `checkExecuteGroup`: one warning per group, from the start of its first line to the end of its last. */
  function CheckExecuteGroup(lines: seq<string>): (r: seq<GroupDiag>)
    ensures var gs := FindExecuteGroups(lines);
            |r| == |gs| && forall j :: 0 <= j < |r| ==>
              r[j] == GroupDiag(gs[j].startLine, gs[j].endLine, |lines[gs[j].endLine]|)
  {
    var gs := FindExecuteGroups(lines);
    seq(|gs|, j requires 0 <= j < |gs| => GroupDiag(gs[j].startLine, gs[j].endLine, |lines[gs[j].endLine]|))
  }
}
