/**
 * The character-loop scanners the execute and selector rules share: the
 * bracket- and quote-aware word splitter of `execute` lines, the
 * depth-0 comma splitter of selector arguments, and the global scan for
 * selectors `@x[…]`.
 */
module Tokens {
  import opened Wrappers
  import opened Text
  import opened Seqs

  // ------------------------------------------------------- execute words

  /** The word splitter's state before a character: bracket depth and whether a `"` string is open. */
  datatype Lex = Lex(depth: int, inQuote: bool)

  /** A `"` not preceded by a backslash opens or closes a string. */
  predicate Toggles(line: string, i: nat)
    requires i < |line|
  {
    line[i] == '"' && (i == 0 || line[i - 1] != '\\')
  }

  function Advance(line: string, i: nat, st: Lex): Lex
    requires i < |line|
  {
    var c := line[i];
    if Toggles(line, i) then st.(inQuote := !st.inQuote)
    else if !st.inQuote && (c == '{' || c == '[') then st.(depth := st.depth + 1)
    else if !st.inQuote && (c == '}' || c == ']') then st.(depth := st.depth - 1)
    else st
  }

  /** The state before position `i`. */
  function StateAt(line: string, i: nat): Lex
    requires i <= |line|
  {
    if i == 0 then Lex(0, false) else Advance(line, i - 1, StateAt(line, i - 1))
  }

  /** A space outside strings at depth 0 separates words. */
  predicate Separates(line: string, i: nat)
    requires i < |line|
  {
    var st := StateAt(line, i);
    line[i] == ' ' && !st.inQuote && st.depth == 0
  }

  /** The characters from `i` on that are not separators, in order. */
  function Kept(line: string, i: nat): string
    requires i <= |line|
    decreases |line| - i
  {
    if i == |line| then [] else (if Separates(line, i) then [] else [line[i]]) + Kept(line, i + 1)
  }

  /** The words from position `i` on, `cur` being the word under construction. */
  function WordsFrom(line: string, i: nat, st: Lex, cur: string): (r: seq<string>)
    requires i <= |line| && st == StateAt(line, i)
    ensures cur != [] ==> r != []
    decreases |line| - i
  {
    if i == |line| then
      if cur == [] then [] else [cur]
    else if line[i] == ' ' && !st.inQuote && st.depth == 0 then
      var rest := WordsFrom(line, i + 1, Advance(line, i, st), []);
      if cur == [] then rest else [cur] + rest
    else
      WordsFrom(line, i + 1, Advance(line, i, st), cur + [line[i]])
  }

  lemma FlattenCons(x: string, rest: seq<string>)
    ensures Flatten([x] + rest) == x + Flatten(rest)
  {
    assert ([x] + rest)[1..] == rest;
  }

  /** No word from `i` on is empty. */
  lemma {:induction false} WordsFromNonEmpty(line: string, i: nat, cur: string)
    requires i <= |line|
    ensures var r := WordsFrom(line, i, StateAt(line, i), cur);
            forall j :: 0 <= j < |r| ==> r[j] != []
    decreases |line| - i
  {
    if i < |line| {
      WordsStep(line, i, cur);
      if Separates(line, i) {
        WordsFromNonEmpty(line, i + 1, []);
      } else {
        WordsFromNonEmpty(line, i + 1, cur + [line[i]]);
      }
    }
  }

  lemma KeptStep(line: string, i: nat)
    requires i < |line|
    ensures Kept(line, i) == (if Separates(line, i) then [] else [line[i]]) + Kept(line, i + 1)
  {
  }

  /** The words from `i` on hold the word under construction and then the kept characters. */
  lemma {:induction false} WordsFromKept(line: string, i: nat, cur: string)
    requires i <= |line|
    ensures Flatten(WordsFrom(line, i, StateAt(line, i), cur)) == cur + Kept(line, i)
    decreases |line| - i
  {
    if i < |line| {
      var r := WordsFrom(line, i, StateAt(line, i), cur);
      var kept, more := Kept(line, i), Kept(line, i + 1);
      WordsStep(line, i, cur);
      KeptStep(line, i);
      if Separates(line, i) {
        var rest := WordsFrom(line, i + 1, StateAt(line, i + 1), []);
        WordsFromKept(line, i + 1, []);
        assert Flatten(rest) == more && kept == more;
        if cur == [] {
          assert r == rest;
        } else {
          assert r == [cur] + rest;
          FlattenCons(cur, rest);
        }
      } else {
        var c := cur + [line[i]];
        WordsFromKept(line, i + 1, c);
        assert r == WordsFrom(line, i + 1, StateAt(line, i + 1), c);
        assert kept == [line[i]] + more;
        assert c + more == cur + kept;
      }
    } else {
      assert Kept(line, i) == [];
    }
  }

  /**
   * `tokenizeExecute` / `tokenizeLine`: the words of a line, split at the
   * spaces outside strings and brackets. No word is empty, and the words
   * together hold exactly the characters of the line other than those
   * separating spaces.
   */
  function Words(line: string): (r: seq<string>)
    ensures forall j :: 0 <= j < |r| ==> r[j] != []
    ensures Flatten(r) == Kept(line, 0)
  {
    WordsFromNonEmpty(line, 0, []);
    WordsFromKept(line, 0, []);
    WordsFrom(line, 0, Lex(0, false), [])
  }

  /** A character that neither opens nor closes a string or a bracket. */
  predicate PlainChar(c: char) {
    c != '"' && c != '{' && c != '}' && c != '[' && c != ']'
  }

  predicate PlainText(s: string) {
    forall k :: 0 <= k < |s| ==> PlainChar(s[k])
  }

  /** A word of plain characters and no space. */
  predicate PlainWord(w: string) {
    w != [] && PlainText(w) && forall k :: 0 <= k < |w| ==> w[k] != ' '
  }

  /** In plain text no string or bracket is ever open. */
  lemma {:induction false} PlainState(s: string, i: nat)
    requires i <= |s| && PlainText(s)
    ensures StateAt(s, i) == Lex(0, false)
    decreases i
  {
    if i > 0 {
      PlainState(s, i - 1);
      assert PlainChar(s[i - 1]);
    }
  }

  lemma {:induction false} JoinPlain(ws: seq<string>)
    requires forall j :: 0 <= j < |ws| ==> PlainWord(ws[j])
    ensures PlainText(Join(ws, " "))
  {
    if |ws| > 1 {
      JoinPlain(ws[1..]);
      var t := Join(ws[1..], " ");
      assert PlainWord(ws[0]);
      assert forall k :: 0 <= k < |ws[0] + " " + t| ==> PlainChar((ws[0] + " " + t)[k]) by {
        forall k | 0 <= k < |ws[0] + " " + t|
          ensures PlainChar((ws[0] + " " + t)[k])
        {
          if k > |ws[0]| {
            assert (ws[0] + " " + t)[k] == t[k - |ws[0]| - 1];
          }
        }
      }
    } else if |ws| == 1 {
      assert PlainWord(ws[0]);
    }
  }

  /** The word splitter on text where no string or bracket ever opens: every space separates. */
  function PlainWordsFrom(s: string, i: nat, cur: string): seq<string>
    requires i <= |s|
    decreases |s| - i
  {
    if i == |s| then (if cur == [] then [] else [cur])
    else if s[i] == ' ' then (if cur == [] then PlainWordsFrom(s, i + 1, []) else [cur] + PlainWordsFrom(s, i + 1, []))
    else PlainWordsFrom(s, i + 1, cur + [s[i]])
  }

  lemma {:induction false} PlainWords(s: string, i: nat, cur: string)
    requires PlainText(s) && i <= |s|
    ensures StateAt(s, i) == Lex(0, false)
    ensures WordsFrom(s, i, Lex(0, false), cur) == PlainWordsFrom(s, i, cur)
    decreases |s| - i
  {
    var z := Lex(0, false);
    PlainState(s, i);
    if i < |s| {
      assert PlainChar(s[i]);
      assert Advance(s, i, z) == z;
      if s[i] == ' ' {
        PlainWords(s, i + 1, []);
        if cur == [] {
          assert WordsFrom(s, i, z, cur) == WordsFrom(s, i + 1, z, []);
        } else {
          assert WordsFrom(s, i, z, cur) == [cur] + WordsFrom(s, i + 1, z, []);
        }
      } else {
        PlainWords(s, i + 1, cur + [s[i]]);
        assert WordsFrom(s, i, z, cur) == WordsFrom(s, i + 1, z, cur + [s[i]]);
      }
    }
  }

  /** The words from a position do not depend on what precedes it. */
  lemma {:induction false} PlainShift(p: string, q: string, j: nat, cur: string)
    requires j <= |q|
    ensures PlainWordsFrom(p + q, |p| + j, cur) == PlainWordsFrom(q, j, cur)
    decreases |q| - j
  {
    if j < |q| {
      assert (p + q)[|p| + j] == q[j];
      if q[j] == ' ' {
        PlainShift(p, q, j + 1, []);
      } else {
        PlainShift(p, q, j + 1, cur + [q[j]]);
      }
    }
  }

  /** A word ending at a space at `n` is read as one word. */
  lemma {:induction false} PlainPiece(t: string, n: nat, i: nat)
    requires 0 < n < |t| && t[n] == ' ' && i <= n
    requires forall k :: 0 <= k < n ==> t[k] != ' '
    ensures PlainWordsFrom(t, i, t[..i]) == [t[..n]] + PlainWordsFrom(t, n + 1, [])
    decreases n - i
  {
    if i < n {
      assert t[..i] + [t[i]] == t[..i + 1];
      PlainPiece(t, n, i + 1);
    } else {
      assert t[..n] != [];
    }
  }

  /** A word at the end is read as one word. */
  lemma {:induction false} PlainLast(x: string, i: nat)
    requires x != [] && i <= |x| && forall k :: 0 <= k < |x| ==> x[k] != ' '
    ensures PlainWordsFrom(x, i, x[..i]) == [x]
    decreases |x| - i
  {
    if i < |x| {
      assert x[..i] + [x[i]] == x[..i + 1];
      PlainLast(x, i + 1);
    } else {
      assert x[..i] == x;
    }
  }

  lemma {:induction false} PlainJoin(ws: seq<string>)
    requires |ws| >= 1
    requires forall j :: 0 <= j < |ws| ==> PlainWord(ws[j])
    ensures PlainWordsFrom(Join(ws, " "), 0, []) == ws
  {
    var x := ws[0];
    assert PlainWord(x);
    assert x[..0] == [];
    if |ws| == 1 {
      PlainLast(x, 0);
    } else {
      var rest := Join(ws[1..], " ");
      var t := x + " " + rest;
      assert t[..|x|] == x && t[|x|] == ' ';
      PlainPiece(t, |x|, 0);
      assert t == (x + " ") + rest;
      PlainShift(x + " ", rest, 0, []);
      PlainJoin(ws[1..]);
      assert ws == [x] + ws[1..];
    }
  }

  /** Splitting plain words joined by single spaces gives back those words. */
  lemma WordsJoin(ws: seq<string>)
    requires |ws| >= 1
    requires forall j :: 0 <= j < |ws| ==> PlainWord(ws[j])
    ensures Words(Join(ws, " ")) == ws
  {
    JoinPlain(ws);
    PlainWords(Join(ws, " "), 0, []);
    PlainJoin(ws);
  }

  /** The states of a prefix are those of the whole line: a state looks only backwards. */
  lemma {:induction false} StatePrefix(line: string, n: nat, k: nat)
    requires k <= n <= |line|
    ensures StateAt(line[..n], k) == StateAt(line, k)
    decreases k
  {
    if k > 0 {
      StatePrefix(line, n, k - 1);
      var p := line[..n];
      assert p[k - 1] == line[k - 1];
      assert Toggles(p, k - 1) == Toggles(line, k - 1);
    }
  }

  /** After a separating space the state is the start state again, and the suffix runs through the same states. */
  lemma {:induction false} StateSuffix(line: string, i: nat, k: nat)
    requires i < |line| && Separates(line, i) && i + 1 + k <= |line|
    ensures StateAt(line[i + 1..], k) == StateAt(line, i + 1 + k)
    decreases k
  {
    var q := line[i + 1..];
    if k == 0 {
      assert StateAt(line, i + 1) == Advance(line, i, StateAt(line, i));
      assert !Toggles(line, i);
    } else {
      StateSuffix(line, i, k - 1);
      assert q[k - 1] == line[i + k];
      if k - 1 == 0 {
        assert line[i] == ' ';
        assert Toggles(q, 0) == Toggles(line, i + 1);
      } else {
        assert q[k - 2] == line[i + k - 1];
        assert Toggles(q, k - 1) == Toggles(line, i + k);
      }
      assert StateAt(line, i + 1 + k) == Advance(line, i + k, StateAt(line, i + k));
    }
  }

  /** The words of a suffix after a separating space are read as they are in the whole line. */
  /** One step of the word splitter, read from the states of the line. */
  lemma WordsStep(line: string, j: nat, cur: string)
    requires j < |line|
    ensures WordsFrom(line, j, StateAt(line, j), cur)
         == if Separates(line, j) then
              (if cur == [] then WordsFrom(line, j + 1, StateAt(line, j + 1), [])
               else [cur] + WordsFrom(line, j + 1, StateAt(line, j + 1), []))
            else WordsFrom(line, j + 1, StateAt(line, j + 1), cur + [line[j]])
  {
    assert Advance(line, j, StateAt(line, j)) == StateAt(line, j + 1);
  }

  lemma {:induction false} WordsSuffix(line: string, i: nat, k: nat, cur: string)
    requires i < |line| && Separates(line, i) && i + 1 + k <= |line|
    ensures StateAt(line[i + 1..], k) == StateAt(line, i + 1 + k)
    ensures WordsFrom(line, i + 1 + k, StateAt(line, i + 1 + k), cur)
         == WordsFrom(line[i + 1..], k, StateAt(line[i + 1..], k), cur)
    decreases |line| - (i + 1 + k)
  {
    var q := line[i + 1..];
    var j := i + 1 + k;
    StateSuffix(line, i, k);
    if j < |line| {
      StateSuffix(line, i, k + 1);
      assert q[k] == line[j];
      assert Separates(q, k) == Separates(line, j);
      WordsStep(line, j, cur);
      WordsStep(q, k, cur);
      if Separates(line, j) {
        WordsSuffix(line, i, k + 1, []);
      } else {
        WordsSuffix(line, i, k + 1, cur + [line[j]]);
      }
    }
  }

  /** Up to a separating space at `n`, the words of the line are those of its prefix, followed by the rest. */
  lemma {:induction false} WordsPrefix(line: string, n: nat, k: nat, cur: string)
    requires n < |line| && Separates(line, n) && k <= n
    ensures StateAt(line[..n], k) == StateAt(line, k)
    ensures WordsFrom(line, k, StateAt(line, k), cur)
         == WordsFrom(line[..n], k, StateAt(line[..n], k), cur) + WordsFrom(line, n + 1, StateAt(line, n + 1), [])
    decreases n - k
  {
    var p := line[..n];
    StatePrefix(line, n, k);
    var tail := WordsFrom(line, n + 1, StateAt(line, n + 1), []);
    var whole := WordsFrom(line, k, StateAt(line, k), cur);
    WordsStep(line, k, cur);
    if k == n {
      assert whole == (if cur == [] then tail else [cur] + tail);
      assert WordsFrom(p, k, StateAt(p, k), cur) == (if cur == [] then [] else [cur]);
    } else {
      StatePrefix(line, n, k + 1);
      assert p[k] == line[k];
      assert Separates(p, k) == Separates(line, k);
      var part := WordsFrom(p, k, StateAt(p, k), cur);
      WordsStep(p, k, cur);
      if Separates(line, k) {
        WordsPrefix(line, n, k + 1, []);
        var mid := WordsFrom(p, k + 1, StateAt(p, k + 1), []);
        assert WordsFrom(line, k + 1, StateAt(line, k + 1), []) == mid + tail;
        if cur == [] {
          assert whole == mid + tail && part == mid;
        } else {
          assert whole == [cur] + (mid + tail) && part == [cur] + mid;
          assert [cur] + (mid + tail) == ([cur] + mid) + tail;
        }
      } else {
        var c := cur + [line[k]];
        WordsPrefix(line, n, k + 1, c);
        assert whole == WordsFrom(line, k + 1, StateAt(line, k + 1), c);
        assert part == WordsFrom(p, k + 1, StateAt(p, k + 1), c);
      }
    }
  }

  /**
   * A separating space splits the words: the words of the line are the
   * words before it followed by the words after it, each side read on
   * its own.
   */
  lemma WordsSplit(line: string, n: nat)
    requires n < |line| && Separates(line, n)
    ensures Words(line) == Words(line[..n]) + Words(line[n + 1..])
  {
    var p, q := line[..n], line[n + 1..];
    var tail := WordsFrom(line, n + 1, StateAt(line, n + 1), []);
    WordsPrefix(line, n, 0, []);
    assert Words(line) == WordsFrom(p, 0, Lex(0, false), []) + tail;
    WordsSuffix(line, n, 0, []);
    assert tail == WordsFrom(q, 0, Lex(0, false), []);
  }

  /** Without a separating space from `k` on, the rest of the line joins the word under construction. */
  lemma {:induction false} WordsRun(line: string, k: nat, cur: string)
    requires k <= |line|
    requires forall j :: k <= j < |line| ==> !Separates(line, j)
    ensures WordsFrom(line, k, StateAt(line, k), cur) == (if cur + line[k..] == [] then [] else [cur + line[k..]])
    decreases |line| - k
  {
    if k < |line| {
      assert !Separates(line, k);
      var st := StateAt(line, k);
      assert Advance(line, k, st) == StateAt(line, k + 1);
      WordsRun(line, k + 1, cur + [line[k]]);
      assert WordsFrom(line, k, st, cur) == WordsFrom(line, k + 1, StateAt(line, k + 1), cur + [line[k]]);
      assert cur + [line[k]] + line[k + 1..] == cur + line[k..];
    } else {
      assert cur + line[k..] == cur;
    }
  }

  /** A non-empty line without a separating space is one word, the whole line. */
  lemma WordsWhole(line: string)
    requires line != []
    requires forall j :: 0 <= j < |line| ==> !Separates(line, j)
    ensures Words(line) == [line]
  {
    WordsRun(line, 0, []);
    assert [] + line[0..] == line;
  }

  // ------------------------------------------------- selector arguments

  function CommaDepth(c: char, depth: int): int {
    if c == '{' || c == '[' then depth + 1 else if c == '}' || c == ']' then depth - 1 else depth
  }

  /** The separating commas from `i` on: commas met at depth 0. */
  function SeparatorCount(s: string, i: nat, depth: int): nat
    requires i <= |s|
    decreases |s| - i
  {
    if i == |s| then 0
    else if s[i] == ',' && depth == 0 then 1 + SeparatorCount(s, i + 1, 0)
    else SeparatorCount(s, i + 1, CommaDepth(s[i], depth))
  }

  function SplitArgsFrom(s: string, i: nat, depth: int, cur: string): seq<string>
    requires i <= |s|
    decreases |s| - i
  {
    if i == |s| then [cur]
    else if s[i] == ',' && depth == 0 then [cur] + SplitArgsFrom(s, i + 1, 0, [])
    else SplitArgsFrom(s, i + 1, CommaDepth(s[i], depth), cur + [s[i]])
  }

  lemma {:induction false} SplitArgsFromRejoin(s: string, i: nat, depth: int, cur: string)
    requires i <= |s|
    ensures |SplitArgsFrom(s, i, depth, cur)| == 1 + SeparatorCount(s, i, depth)
    ensures Join(SplitArgsFrom(s, i, depth, cur), ",") == cur + s[i..]
    decreases |s| - i
  {
    if i < |s| {
      assert s[i..] == [s[i]] + s[i + 1..];
      if s[i] == ',' && depth == 0 {
        SplitArgsFromRejoin(s, i + 1, 0, []);
        var rest := SplitArgsFrom(s, i + 1, 0, []);
        assert ([cur] + rest)[1..] == rest;
      } else {
        SplitArgsFromRejoin(s, i + 1, CommaDepth(s[i], depth), cur + [s[i]]);
      }
    }
  }

  /** The raw segments of a selector's argument text, cut at the commas outside `{}` and `[]`. */
  function SplitArgs(s: string): seq<string> {
    SplitArgsFrom(s, 0, 0, [])
  }

  /**
   * Joining the segments back with commas gives the text, and there is
   * one more segment than separating commas.
   */
  lemma SplitArgsRejoin(s: string)
    ensures |SplitArgs(s)| == 1 + SeparatorCount(s, 0, 0)
    ensures Join(SplitArgs(s), ",") == s
  {
    SplitArgsFromRejoin(s, 0, 0, []);
  }

  /** The depth before position `i` when the splitter starts at depth 0. */
  function DepthAt(s: string, i: nat): int
    requires i <= |s|
  {
    if i == 0 then 0 else CommaDepth(s[i - 1], DepthAt(s, i - 1))
  }

  /** A segment that holds no comma at depth 0: the splitter reads it as one piece. */
  predicate Open(s: string) {
    forall i :: 0 <= i < |s| && s[i] == ',' ==> DepthAt(s, i) != 0
  }

  /**
   * A segment the splitter reads back unchanged before a comma: it holds
   * no comma at depth 0 and ends at depth 0, so the comma after it
   * separates.
   */
  predicate Balanced(s: string) {
    Open(s) && DepthAt(s, |s|) == 0
  }

  /** The depths inside a prefix do not depend on what follows it. */
  lemma {:induction false} DepthPrefix(s: string, t: string, i: nat)
    requires i <= |s|
    ensures DepthAt(s + t, i) == DepthAt(s, i)
  {
    if i > 0 {
      assert (s + t)[i - 1] == s[i - 1];
      DepthPrefix(s, t, i - 1);
    }
  }

  /** Depth counts add up: the depth inside a suffix is measured from where it starts. */
  lemma {:induction false} DepthSuffix(s: string, a: nat, i: nat)
    requires a + i <= |s|
    ensures DepthAt(s, a + i) == DepthAt(s, a) + DepthAt(s[a..], i)
  {
    if i > 0 {
      assert s[a..][i - 1] == s[a + i - 1];
      DepthSuffix(s, a, i - 1);
    }
  }

  /** Whitespace leaves the depth where it was. */
  lemma {:induction false} DepthOverSpaces(s: string, a: nat, b: nat)
    requires a <= b <= |s| && forall k :: a <= k < b ==> IsSpace(s[k])
    ensures DepthAt(s, b) == DepthAt(s, a)
    decreases b - a
  {
    if a < b {
      assert IsSpace(s[b - 1]);
      DepthOverSpaces(s, a, b - 1);
    }
  }

  /** Trimming a segment keeps it open, and keeps it balanced. */
  /** The depth inside an infix is measured from where it starts. */
  lemma InfixDepth(s: string, a: nat, b: nat, i: nat)
    requires a <= b <= |s| && i <= b - a
    ensures DepthAt(s[a..b], i) == DepthAt(s, a + i) - DepthAt(s, a)
  {
    DepthSuffix(s, a, i);
    assert s[a..] == s[a..b] + s[b..];
    DepthPrefix(s[a..b], s[b..], i);
  }

  /** An infix between whitespace runs has the depths of the whole text. */
  lemma {:induction false} PaddedDepth(s: string, a: nat, b: nat)
    requires a <= b <= |s| && forall k :: 0 <= k < a ==> IsSpace(s[k])
    ensures forall i :: 0 <= i <= b - a ==> DepthAt(s[a..b], i) == DepthAt(s, a + i)
  {
    DepthOverSpaces(s, 0, a);
    assert DepthAt(s, 0) == 0;
    forall i | 0 <= i <= b - a ensures DepthAt(s[a..b], i) == DepthAt(s, a + i) {
      InfixDepth(s, a, b, i);
    }
  }

  lemma TrimKeepsDepth(s: string)
    ensures Open(s) ==> Open(Trim(s))
    ensures Balanced(s) ==> Balanced(Trim(s))
  {
    var a := SpaceEnd(s, 0);
    var b := SpaceStart(s, a, |s|);
    assert Trim(s) == s[a..b];
    PaddedKeeps(s, a, b);
  }

  /** Cutting whitespace off both ends keeps a segment open, and keeps it balanced. */
  lemma PaddedKeeps(s: string, a: nat, b: nat)
    requires a <= b <= |s|
    requires forall k :: 0 <= k < a ==> IsSpace(s[k])
    requires forall k :: b <= k < |s| ==> IsSpace(s[k])
    ensures Open(s) ==> Open(s[a..b])
    ensures Balanced(s) ==> Balanced(s[a..b])
  {
    PaddedDepth(s, a, b);
    if Open(s) {
      InfixOpen(s, a, b);
    }
    if Balanced(s) {
      DepthOverSpaces(s, b, |s|);
    }
  }

  /** An infix with the depths of the whole text is open when the text is. */
  lemma InfixOpen(s: string, a: nat, b: nat)
    requires a <= b <= |s| && Open(s)
    requires forall i :: 0 <= i <= b - a ==> DepthAt(s[a..b], i) == DepthAt(s, a + i)
    ensures Open(s[a..b])
  {
    var r := s[a..b];
    forall i | 0 <= i < |r| ensures r[i] != ',' || DepthAt(r, i) != 0 {
      assert r[i] == s[a + i];
    }
  }

  /** Segments as the splitter cuts them: every one but the last balanced, every one open. */
  predicate Segmented(segs: seq<string>) {
    && (forall j :: 0 <= j < |segs| - 1 ==> Balanced(segs[j]))
    && (forall j :: 0 <= j < |segs| ==> Open(segs[j]))
  }

  lemma SegmentedCons(cur: string, rest: seq<string>)
    requires Balanced(cur) && Segmented(rest)
    ensures Segmented([cur] + rest)
  {
    var r := [cur] + rest;
    assert forall j :: 1 <= j < |r| ==> r[j] == rest[j - 1];
  }

  /** Reading one more character that is not a separating comma keeps the segment open. */
  lemma OpenExtend(cur: string, c: char)
    requires Open(cur) && !(c == ',' && DepthAt(cur, |cur|) == 0)
    ensures Open(cur + [c]) && DepthAt(cur + [c], |cur| + 1) == CommaDepth(c, DepthAt(cur, |cur|))
  {
    var next := cur + [c];
    forall k | 0 <= k <= |cur| ensures DepthAt(next, k) == DepthAt(cur, k) {
      DepthPrefix(cur, [c], k);
    }
    forall k | 0 <= k < |next| ensures next[k] != ',' || DepthAt(next, k) != 0 {
      if k < |cur| { assert cur[k] == next[k]; }
    }
  }

  /** The splitter's segments from a state whose open segment `cur` is read so far. */
  lemma {:induction false} SplitArgsFromShape(s: string, i: nat, cur: string)
    requires i <= |s| && Open(cur)
    ensures Segmented(SplitArgsFrom(s, i, DepthAt(cur, |cur|), cur))
    decreases |s| - i
  {
    var d := DepthAt(cur, |cur|);
    if i == |s| {
      assert SplitArgsFrom(s, i, d, cur) == [cur];
    } else if s[i] == ',' && d == 0 {
      var e: string := [];
      assert DepthAt(e, |e|) == 0 && Open(e);
      SplitArgsFromShape(s, i + 1, e);
      SegmentedCons(cur, SplitArgsFrom(s, i + 1, 0, e));
      assert SplitArgsFrom(s, i, d, cur) == [cur] + SplitArgsFrom(s, i + 1, 0, e);
    } else {
      var next := cur + [s[i]];
      OpenExtend(cur, s[i]);
      SplitArgsFromShape(s, i + 1, next);
      assert SplitArgsFrom(s, i, d, cur) == SplitArgsFrom(s, i + 1, DepthAt(next, |next|), next);
    }
  }

  /** The segments of a selector's argument text: all but the last balanced, all open. */
  lemma SplitArgsShape(s: string)
    ensures Segmented(SplitArgs(s))
  {
    var e: string := [];
    assert DepthAt(e, |e|) == 0 && Open(e);
    SplitArgsFromShape(s, 0, e);
    assert SplitArgs(s) == SplitArgsFrom(s, 0, DepthAt(e, |e|), e);
  }

  /** Text without commas or brackets is balanced. */
  lemma {:induction false} FlatBalanced(s: string, i: nat)
    requires i <= |s|
    requires ',' !in s && '{' !in s && '}' !in s && '[' !in s && ']' !in s
    ensures DepthAt(s, i) == 0
    ensures i == |s| ==> Balanced(s)
  {
    if i > 0 {
      assert s[i - 1] in s;
      FlatBalanced(s, i - 1);
    }
  }

  /** Splitting does not depend on what precedes the current position. */
  lemma {:induction false} SplitArgsShift(p: string, q: string, j: nat, depth: int, cur: string)
    requires j <= |q|
    ensures SplitArgsFrom(p + q, |p| + j, depth, cur) == SplitArgsFrom(q, j, depth, cur)
    decreases |q| - j
  {
    if j < |q| {
      assert (p + q)[|p| + j] == q[j];
      if q[j] == ',' && depth == 0 {
        SplitArgsShift(p, q, j + 1, 0, []);
      } else {
        SplitArgsShift(p, q, j + 1, CommaDepth(q[j], depth), cur + [q[j]]);
      }
    }
  }

  /** A balanced segment followed by a comma is read as one segment. */
  lemma {:induction false} SplitArgsPiece(x: string, rest: string, i: nat)
    requires Balanced(x) && i <= |x|
    ensures SplitArgsFrom(x + "," + rest, i, DepthAt(x, i), x[..i]) == [x] + SplitArgsFrom(x + "," + rest, |x| + 1, 0, [])
    decreases |x| - i
  {
    var t := x + "," + rest;
    if i < |x| {
      assert t[i] == x[i];
      assert !(x[i] == ',' && DepthAt(x, i) == 0);
      assert DepthAt(x, i + 1) == CommaDepth(x[i], DepthAt(x, i));
      assert x[..i] + [x[i]] == x[..i + 1];
      SplitArgsPiece(x, rest, i + 1);
    } else {
      assert t[|x|] == ',';
      assert x[..i] == x;
    }
  }

  /** An open segment at the end is read as one segment. */
  lemma {:induction false} SplitArgsLast(x: string, i: nat)
    requires Open(x) && i <= |x|
    ensures SplitArgsFrom(x, i, DepthAt(x, i), x[..i]) == [x]
    decreases |x| - i
  {
    var d, cur := DepthAt(x, i), x[..i];
    if i < |x| {
      assert !(x[i] == ',' && d == 0);
      assert DepthAt(x, i + 1) == CommaDepth(x[i], d);
      assert cur + [x[i]] == x[..i + 1];
      SplitArgsLast(x, i + 1);
    } else {
      assert cur == x;
    }
  }

  /** A balanced segment, a comma and a text split as the segment followed by the text's segments. */
  lemma SplitCons(x: string, rest: string)
    requires Balanced(x)
    ensures SplitArgs(x + "," + rest) == [x] + SplitArgs(rest)
  {
    var p := x + ",";
    var t := p + rest;
    assert t == x + "," + rest by { }
    assert SplitArgsFrom(t, 0, 0, []) == [x] + SplitArgsFrom(t, |x| + 1, 0, []) by {
      assert x[..0] == [] && DepthAt(x, 0) == 0;
      SplitArgsPiece(x, rest, 0);
    }
    assert SplitArgsFrom(t, |x| + 1, 0, []) == SplitArgs(rest) by {
      SplitArgsShift(p, rest, 0, 0, []);
    }
  }

  /**
   * Joining segments with commas and splitting again gives them back,
   * when every segment but the last is balanced and the last is open.
   */
  lemma {:induction false} SplitJoin(parts: seq<string>)
    requires |parts| >= 1
    requires forall j :: 0 <= j < |parts| - 1 ==> Balanced(parts[j])
    requires Open(parts[|parts| - 1])
    ensures SplitArgs(Join(parts, ",")) == parts
  {
    if |parts| == 1 {
      assert parts[0][..0] == [];
      SplitArgsLast(parts[0], 0);
    } else {
      SplitCons(parts[0], Join(parts[1..], ","));
      SplitJoin(parts[1..]);
      assert parts == [parts[0]] + parts[1..];
    }
  }

  /** `s.slice(1, -1)`. */
  function Inner(s: string): (r: string)
    ensures |s| >= 2 ==> r == s[1..|s| - 1]
    ensures |s| < 2 ==> r == []
  {
    if |s| >= 2 then s[1..|s| - 1] else []
  }

  // ------------------------------------------------------ selector scan

  /** The first `c` at or after `i`, or -1. */
  function FindChar(s: string, c: char, i: nat): (k: int)
    requires i <= |s|
    ensures k == -1 || (i <= k < |s| && s[k] == c)
    ensures forall j :: i <= j < |s| && (k == -1 || j < k) ==> s[j] != c
    decreases |s| - i
  {
    if i == |s| then -1 else if s[i] == c then i else FindChar(s, c, i + 1)
  }

  /** The length of `\[[^\]]*\]` at `i`: up to the first `]`; 0 when there is no `[` there or no `]` after it. */
  function BracketLen(s: string, i: nat): (n: nat)
    requires i <= |s|
    ensures i + n <= |s|
    ensures n == 0 || (n >= 2 && s[i] == '[' && s[i + n - 1] == ']' && forall k :: i < k < i + n - 1 ==> s[k] != ']')
    ensures n == 0 && i < |s| && s[i] == '[' ==> forall k :: i < k < |s| ==> s[k] != ']'
  {
    if i < |s| && s[i] == '[' then
      var j := FindChar(s, ']', i + 1);
      if j == -1 then 0 else j - i + 1
    else 0
  }

  /** A selector match: `@`, the letter, the optional `[…]` part, and its span `[start, end)`. */
  datatype SelectorMatch = SelectorMatch(start: nat, letter: char, args: string, end: nat)

  /** `m` is the match of `@([letters])(\[[^\]]*\])?` at its start. */
  predicate IsMatch(s: string, m: SelectorMatch, letters: set<char>) {
    && m.start + 2 <= m.end <= |s|
    && s[m.start] == '@' && s[m.start + 1] in letters && m.letter == s[m.start + 1]
    && m.end - (m.start + 2) == BracketLen(s, m.start + 2)
    && m.args == s[m.start + 2..m.end]
  }

  /** `@([letters])(\[[^\]]*\])?` matched at `p`. */
  function SelectorAt(s: string, p: nat, letters: set<char>): (r: Option<SelectorMatch>)
    requires p <= |s|
    ensures r.None? <==> !(p + 1 < |s| && s[p] == '@' && s[p + 1] in letters)
    ensures r.Some? ==> r.value.start == p && IsMatch(s, r.value, letters)
  {
    if p + 1 < |s| && s[p] == '@' && s[p + 1] in letters then
      var n := BracketLen(s, p + 2);
      Some(SelectorMatch(p, s[p + 1], s[p + 2..p + 2 + n], p + 2 + n))
    else None
  }

  /** No match starts in `[from, to)`. */
  predicate NoneBetween(s: string, from: nat, to: nat, letters: set<char>) {
    forall p :: from <= p < to && p <= |s| ==> SelectorAt(s, p, letters).None?
  }

  /**
   * Matches found from `from` on: each a match within `[from, |s|)` that
   * is not empty, in order and without overlapping.
   */
  predicate ScanOk(s: string, from: nat, r: seq<SelectorMatch>, letters: set<char>) {
    && (forall j :: 0 <= j < |r| ==> from <= r[j].start < r[j].end <= |s|)
    && (forall j :: 0 <= j < |r| ==> IsMatch(s, r[j], letters))
    && (forall j :: 0 <= j < |r| - 1 ==> r[j].end <= r[j + 1].start)
  }

  lemma ScanCons(s: string, from: nat, m: SelectorMatch, rest: seq<SelectorMatch>, letters: set<char>)
    requires from <= m.start && IsMatch(s, m, letters) && ScanOk(s, m.end, rest, letters)
    ensures ScanOk(s, from, [m] + rest, letters)
  {
    var r := [m] + rest;
    forall j | 0 <= j < |r| ensures from <= r[j].start < r[j].end <= |s| && IsMatch(s, r[j], letters) {
      if j > 0 { assert r[j] == rest[j - 1]; }
    }
    forall j | 0 <= j < |r| - 1 ensures r[j].end <= r[j + 1].start {
      if j > 0 { assert r[j] == rest[j - 1] && r[j + 1] == rest[j]; } else { assert r[1] == rest[0]; }
    }
  }

  /**
   * Every match of the global regex from `from` on: the leftmost match,
   * then the matches after its end.
   */
  function MatchesFrom(s: string, from: nat, letters: set<char>): seq<SelectorMatch>
    requires from <= |s|
    decreases |s| - from
  {
    if from == |s| then []
    else
      var at := SelectorAt(s, from, letters);
      if at.None? then MatchesFrom(s, from + 1, letters)
      else [at.value] + MatchesFrom(s, at.value.end, letters)
  }

  /** The matches are real matches, within the text, in order and apart. */
  lemma {:induction false} MatchesOk(s: string, from: nat, letters: set<char>)
    requires from <= |s|
    ensures ScanOk(s, from, MatchesFrom(s, from, letters), letters)
    decreases |s| - from
  {
    if from < |s| {
      var at := SelectorAt(s, from, letters);
      if at.None? {
        assert MatchesFrom(s, from, letters) == MatchesFrom(s, from + 1, letters);
        MatchesOk(s, from + 1, letters);
      } else {
        var rest := MatchesFrom(s, at.value.end, letters);
        assert MatchesFrom(s, from, letters) == [at.value] + rest;
        MatchesOk(s, at.value.end, letters);
        ScanCons(s, from, at.value, rest, letters);
      }
    }
  }

  /** The scan finds the leftmost match: none starts before the first one reported. */
  lemma {:induction false} MatchesLeftmost(s: string, from: nat, letters: set<char>)
    requires from <= |s|
    ensures var r := MatchesFrom(s, from, letters);
            NoneBetween(s, from, if r == [] then |s| else r[0].start, letters)
    decreases |s| - from
  {
    if from < |s| {
      var at := SelectorAt(s, from, letters);
      if at.None? {
        assert MatchesFrom(s, from, letters) == MatchesFrom(s, from + 1, letters);
        MatchesLeftmost(s, from + 1, letters);
      } else {
        assert MatchesFrom(s, from, letters) == [at.value] + MatchesFrom(s, at.value.end, letters);
      }
    }
  }

  /** No match starts between two consecutive matches, nor after the last one. */
  predicate Gapless(s: string, r: seq<SelectorMatch>, letters: set<char>) {
    && (forall j :: 0 <= j < |r| - 1 ==> NoneBetween(s, r[j].end, r[j + 1].start, letters))
    && (r != [] ==> NoneBetween(s, r[|r| - 1].end, |s|, letters))
  }

  lemma GaplessCons(s: string, m: SelectorMatch, rest: seq<SelectorMatch>, letters: set<char>, r: seq<SelectorMatch>)
    requires Gapless(s, rest, letters)
    requires NoneBetween(s, m.end, if rest == [] then |s| else rest[0].start, letters)
    requires r == [m] + rest
    ensures Gapless(s, r, letters)
  {
    forall j | 0 <= j < |r| - 1 ensures NoneBetween(s, r[j].end, r[j + 1].start, letters) {
      if j > 0 { assert r[j] == rest[j - 1] && r[j + 1] == rest[j]; } else { assert r[1] == rest[0]; }
    }
    if rest != [] { assert r[|r| - 1] == rest[|rest| - 1]; }
  }

  /** The scan resumes at each match's end with the leftmost match there, so it skips none. */
  lemma {:induction false} MatchesGapless(s: string, from: nat, letters: set<char>)
    requires from <= |s|
    ensures Gapless(s, MatchesFrom(s, from, letters), letters)
    decreases |s| - from
  {
    if from < |s| {
      var at := SelectorAt(s, from, letters);
      if at.None? {
        assert MatchesFrom(s, from, letters) == MatchesFrom(s, from + 1, letters);
        MatchesGapless(s, from + 1, letters);
      } else {
        var m := at.value;
        var rest := MatchesFrom(s, m.end, letters);
        MatchesGapless(s, m.end, letters);
        MatchesLeftmost(s, m.end, letters);
        GaplessCons(s, m, rest, letters, MatchesFrom(s, from, letters));
      }
    }
  }

  /** Every position from `from` on where a match could start lies inside a reported match. */
  predicate Covers(s: string, from: nat, r: seq<SelectorMatch>, letters: set<char>) {
    forall p :: from <= p <= |s| && SelectorAt(s, p, letters).Some? ==>
      exists k :: 0 <= k < |r| && r[k].start <= p < r[k].end
  }

  lemma {:induction false} CoveredFrom(s: string, from: nat, r: seq<SelectorMatch>, letters: set<char>, p: nat, i: nat)
    requires ScanOk(s, from, r, letters) && Gapless(s, r, letters)
    requires i < |r| && r[i].start <= p <= |s| && SelectorAt(s, p, letters).Some?
    ensures exists k :: i <= k < |r| && r[k].start <= p < r[k].end
    decreases |r| - i
  {
    if p < r[i].end {
      assert r[i].start <= p < r[i].end;
    } else if i + 1 < |r| {
      assert NoneBetween(s, r[i].end, r[i + 1].start, letters);
      CoveredFrom(s, from, r, letters, p, i + 1);
    }
  }

  lemma MatchesCovers(s: string, from: nat, letters: set<char>)
    requires from <= |s|
    ensures Covers(s, from, MatchesFrom(s, from, letters), letters)
  {
    var r := MatchesFrom(s, from, letters);
    MatchesOk(s, from, letters);
    MatchesLeftmost(s, from, letters);
    MatchesGapless(s, from, letters);
    forall p | from <= p <= |s| && SelectorAt(s, p, letters).Some?
      ensures exists k :: 0 <= k < |r| && r[k].start <= p < r[k].end
    {
      if r != [] && r[0].start <= p {
        CoveredFrom(s, from, r, letters, p, 0);
      }
    }
  }

  /**
   * `line.matchAll(/@([letters])(\[[^\]]*\])?/g)` from `from` on: real
   * matches in order and apart, none skipped before, between or after
   * them, so every place a match could start is inside a reported one.
   */
  function ScanSelectors(s: string, from: nat, letters: set<char>): (r: seq<SelectorMatch>)
    requires from <= |s|
    ensures ScanOk(s, from, r, letters)
    ensures NoneBetween(s, from, if r == [] then |s| else r[0].start, letters)
    ensures Gapless(s, r, letters)
    ensures Covers(s, from, r, letters)
  {
    MatchesOk(s, from, letters);
    MatchesLeftmost(s, from, letters);
    MatchesGapless(s, from, letters);
    MatchesCovers(s, from, letters);
    MatchesFrom(s, from, letters)
  }
}
