/**
 * The JavaScript string operations the analyser relies on, with their
 * ECMAScript behaviour: `trim`, `startsWith`, `indexOf`, `split`,
 * `join`, `parseInt(_, 10)` and the `\s` / `\w` character classes.
 */
module Text {
  import opened Wrappers

  /** ECMAScript WhiteSpace and LineTerminator: what `trim()` removes and `\s` matches. */
  predicate IsSpace(c: char) {
    || c == ' ' || c == '\t' || c == '\n' || c == '\r' || c == '\U{000B}' || c == '\U{000C}'
    || c == '\U{00A0}' || c == '\U{1680}' || ('\U{2000}' <= c <= '\U{200A}') || c == '\U{2028}'
    || c == '\U{2029}' || c == '\U{202F}' || c == '\U{205F}' || c == '\U{3000}' || c == '\U{FEFF}'
  }

  /** The characters a regex `.` refuses to match. */
  predicate IsLineTerminator(c: char) {
    c == '\n' || c == '\r' || c == '\U{2028}' || c == '\U{2029}'
  }

  /** The regex class `\w`; a `\b` sits between a `\w` and a non-`\w` character. */
  predicate IsWordChar(c: char) {
    ('a' <= c <= 'z') || ('A' <= c <= 'Z') || ('0' <= c <= '9') || c == '_'
  }

  predicate IsDigit(c: char) {
    '0' <= c <= '9'
  }

  /** True when position `i` of `s` is a `\b` word boundary. */
  predicate WordBoundary(s: string, i: nat)
    requires i <= |s|
  {
    (i > 0 && IsWordChar(s[i - 1])) != (i < |s| && IsWordChar(s[i]))
  }

  function LowerChar(c: char): char {
    if 'A' <= c <= 'Z' then (c as int + 32) as char else c
  }

  /** `toLowerCase()` on the ASCII letters. */
  function Lower(s: string): (r: string)
    ensures |r| == |s|
    ensures forall i :: 0 <= i < |s| ==> r[i] == LowerChar(s[i])
  {
    if s == [] then [] else [LowerChar(s[0])] + Lower(s[1..])
  }

  /** Text without capital letters is its own lower case. */
  lemma LowerUntouched(s: string)
    requires forall i :: 0 <= i < |s| ==> !('A' <= s[i] <= 'Z')
    ensures Lower(s) == s
  {
  }

  /** Every character equal to `from` replaced by `to` (`replace(/x/g, y)` for one character). */
  function ReplaceChar(s: string, from: char, to: char): (r: string)
    ensures |r| == |s|
    ensures forall i :: 0 <= i < |s| ==> r[i] == (if s[i] == from then to else s[i])
  {
    if s == [] then [] else [if s[0] == from then to else s[0]] + ReplaceChar(s[1..], from, to)
  }

  /** The index just past the run of whitespace that starts at `i`. */
  function SpaceEnd(s: string, i: nat): (j: nat)
    requires i <= |s|
    ensures i <= j <= |s|
    ensures forall k :: i <= k < j ==> IsSpace(s[k])
    ensures j == |s| || !IsSpace(s[j])
    decreases |s| - i
  {
    if i < |s| && IsSpace(s[i]) then SpaceEnd(s, i + 1) else i
  }

  function TrimStart(s: string): (r: string)
    ensures |r| <= |s| && r == s[|s| - |r|..]
    ensures r == [] || !IsSpace(r[0])
    ensures forall k :: 0 <= k < |s| - |r| ==> IsSpace(s[k])
  {
    s[SpaceEnd(s, 0)..]
  }

  /** The start of the run of whitespace that ends at `j`, not going below `lo`. */
  function SpaceStart(s: string, lo: nat, j: nat): (k: nat)
    requires lo <= j <= |s|
    ensures lo <= k <= j
    ensures forall i :: k <= i < j ==> IsSpace(s[i])
    ensures k == lo || !IsSpace(s[k - 1])
    decreases j
  {
    if j > lo && IsSpace(s[j - 1]) then SpaceStart(s, lo, j - 1) else j
  }

  /** `trim()`: the longest infix with no leading or trailing whitespace. */
  function Trim(s: string): (r: string)
    ensures |r| <= |s|
    ensures r == [] || (!IsSpace(r[0]) && !IsSpace(r[|r| - 1]))
  {
    var a := SpaceEnd(s, 0);
    s[a..SpaceStart(s, a, |s|)]
  }

  /** A text that neither starts nor ends with whitespace is its own trim. */
  lemma TrimUntouched(s: string)
    requires s != [] && !IsSpace(s[0]) && !IsSpace(s[|s| - 1])
    ensures Trim(s) == s
  {
    assert SpaceEnd(s, 0) == 0 && SpaceStart(s, 0, |s|) == |s|;
  }

  /** Trimming twice trims nothing more. */
  lemma TrimIdempotent(s: string)
    ensures Trim(Trim(s)) == Trim(s)
  {
    var r := Trim(s);
    if r != [] {
      TrimUntouched(r);
    }
  }

  /** The run of whitespace from `i` ends at `j` when `[i, j)` is whitespace and `j` is not. */
  lemma {:induction false} SpaceEndIs(s: string, i: nat, j: nat)
    requires i <= j <= |s| && (j == |s| || !IsSpace(s[j]))
    requires forall k :: i <= k < j ==> IsSpace(s[k])
    ensures SpaceEnd(s, i) == j
    decreases j - i
  {
    if i < j {
      SpaceEndIs(s, i + 1, j);
    }
  }

  /** The run of whitespace ending at `j` starts at `k` when `[k, j)` is whitespace and `k - 1` is not. */
  lemma {:induction false} SpaceStartIs(s: string, lo: nat, k: nat, j: nat)
    requires lo <= k <= j <= |s| && (k == lo || !IsSpace(s[k - 1]))
    requires forall i :: k <= i < j ==> IsSpace(s[i])
    ensures SpaceStart(s, lo, j) == k
    decreases j - k
  {
    if k < j {
      SpaceStartIs(s, lo, k, j - 1);
    }
  }

  /** The trim is the infix `[i, j)` that starts and ends with non-whitespace and has only whitespace around it. */
  lemma TrimIs(s: string, i: nat, j: nat)
    requires i < j <= |s| && !IsSpace(s[i]) && !IsSpace(s[j - 1])
    requires forall k :: 0 <= k < i ==> IsSpace(s[k])
    requires forall k :: j <= k < |s| ==> IsSpace(s[k])
    ensures Trim(s) == s[i..j]
  {
    SpaceEndIs(s, 0, i);
    SpaceStartIs(s, i, j, |s|);
  }

  /** A text of whitespace only trims to nothing. */
  lemma TrimBlank(s: string)
    requires forall k :: 0 <= k < |s| ==> IsSpace(s[k])
    ensures Trim(s) == []
  {
    SpaceEndIs(s, 0, |s|);
  }

  /** A slice of a suffix is a slice of the whole text. */
  lemma SliceShift(s: string, a: nat, i: nat, j: nat)
    requires a <= i <= j <= |s|
    ensures s[a..][i - a..j - a] == s[i..j]
  {
    var l := s[a..][i - a..j - a];
    forall k | 0 <= k < j - i
      ensures l[k] == s[i..j][k]
    {
      assert l[k] == s[i + k];
    }
  }

  /** Dropping leading whitespace does not change the trim. */
  lemma TrimDropLeading(s: string, a: nat)
    requires a <= |s| && forall k :: 0 <= k < a ==> IsSpace(s[k])
    ensures Trim(s[a..]) == Trim(s)
  {
    var i := SpaceEnd(s, a);
    var t := s[a..];
    if i == |s| {
      TrimBlank(s);
      TrimBlank(t);
    } else {
      var j := SpaceStart(s, i, |s|);
      TrimIs(s, i, j);
      TrimIs(t, i - a, j - a);
      SliceShift(s, a, i, j);
    }
  }

  predicate StartsWith(s: string, p: string) {
    |p| <= |s| && s[..|p|] == p
  }

  predicate EndsWith(s: string, p: string) {
    |p| <= |s| && s[|s| - |p|..] == p
  }

  /** `sub` occurs in `s` at position `j`. */
  predicate OccursAt(s: string, sub: string, j: int) {
    0 <= j && j + |sub| <= |s| && s[j..j + |sub|] == sub
  }

  function FindFrom(s: string, sub: string, i: nat): (k: int)
    requires i <= |s|
    ensures k == -1 || (i <= k && OccursAt(s, sub, k))
    ensures forall j :: i <= j && (k == -1 || j < k) ==> !OccursAt(s, sub, j)
    decreases |s| - i
  {
    if i + |sub| > |s| then -1
    else if s[i..i + |sub|] == sub then i
    else FindFrom(s, sub, i + 1)
  }

  /** `s.indexOf(sub, from)`: the first occurrence at or after `from` (clamped to the length), or -1. */
  function IndexOfFrom(s: string, sub: string, from: nat): (k: int)
    ensures k == -1 || (from <= k && OccursAt(s, sub, k)) || (from > |s| && k == |s| && sub == [])
    ensures k == -1 ==> forall j :: from <= j ==> !OccursAt(s, sub, j)
  {
    FindFrom(s, sub, if from <= |s| then from else |s|)
  }

  function IndexOf(s: string, sub: string): (k: int)
    ensures k == -1 || OccursAt(s, sub, k)
    ensures forall j :: 0 <= j && (k == -1 || j < k) ==> !OccursAt(s, sub, j)
  {
    FindFrom(s, sub, 0)
  }

  /** Where the text occurs, `indexOf` finds it there or earlier. */
  lemma IndexOfFound(s: string, sub: string, j: nat)
    requires OccursAt(s, sub, j)
    ensures 0 <= IndexOf(s, sub) <= j
  {
  }

  predicate Contains(s: string, sub: string) {
    IndexOf(s, sub) != -1
  }

  /** `parts.join(sep)`. */
  function Join(parts: seq<string>, sep: string): string {
    if parts == [] then ""
    else if |parts| == 1 then parts[0]
    else parts[0] + sep + Join(parts[1..], sep)
  }

  /** A join splits at any inner position into the joins of the two sides. */
  lemma {:induction false} JoinSplit(parts: seq<string>, c: nat, sep: string)
    requires 0 < c < |parts|
    ensures Join(parts, sep) == Join(parts[..c], sep) + sep + Join(parts[c..], sep)
    decreases c
  {
    if c > 1 {
      JoinSplit(parts[1..], c - 1, sep);
      assert parts[1..][..c - 1] == parts[1..c] && parts[1..][c - 1..] == parts[c..];
      assert parts[..c][1..] == parts[1..c];
    }
  }

  /** `s.split(sep)` for a non-empty separator string. */
  function SplitOn(s: string, sep: string): (r: seq<string>)
    requires |sep| > 0
    ensures |r| >= 1
    ensures IndexOf(s, sep) == -1 ==> r == [s]
    ensures IndexOf(s, sep) != -1 ==> |r| >= 2 && r[0] == s[..IndexOf(s, sep)]
    ensures Join(r, sep) == s
    decreases |s|
  {
    var k := IndexOf(s, sep);
    if k == -1 then [s]
    else
      var rest := SplitOn(s[k + |sep|..], sep);
      assert s == s[..k] + sep + s[k + |sep|..];
      [s[..k]] + rest
  }

  function DropCR(s: string): string {
    if s != [] && s[|s| - 1] == '\r' then s[..|s| - 1] else s
  }

  /** `s.split(/\r?\n/)`: pieces between line feeds, each losing one `\r` before its `\n`. */
  function SplitLines(s: string): (r: seq<string>)
    ensures |r| == |SplitOn(s, "\n")| >= 1
  {
    var parts := SplitOn(s, "\n");
    seq(|parts|, i requires 0 <= i < |parts| => if i < |parts| - 1 then DropCR(parts[i]) else parts[i])
  }

  function FirstSpace(s: string, i: nat): (k: int)
    requires i <= |s|
    ensures k == -1 || (i <= k < |s| && IsSpace(s[k]))
    ensures forall j :: i <= j < |s| && (k == -1 || j < k) ==> !IsSpace(s[j])
    decreases |s| - i
  {
    if i == |s| then -1 else if IsSpace(s[i]) then i else FirstSpace(s, i + 1)
  }

  /** `s.split(/\s+/)`: pieces between maximal whitespace runs. */
  function SplitSpaces(s: string): (r: seq<string>)
    ensures |r| >= 1
    ensures forall i :: 0 <= i < |r| ==> forall c :: c in r[i] ==> !IsSpace(c)
    decreases |s|
  {
    var k := FirstSpace(s, 0);
    if k == -1 then [s] else [s[..k]] + SplitSpaces(s[SpaceEnd(s, k)..])
  }

  /** An occurrence in a suffix is one in the whole text, shifted. */
  lemma SuffixOccurs(s: string, e: nat, t: string, j: nat)
    requires e <= |s| && OccursAt(s[e..], t, j)
    ensures OccursAt(s, t, e + j)
  {
    assert s[e..][j..j + |t|] == s[e + j..e + j + |t|];
  }

  /** An occurrence in an infix is one in the whole text, shifted. */
  lemma InfixOccurs(whole: string, s: string, off: nat, t: string, j: nat)
    requires off + |s| <= |whole| && whole[off..off + |s|] == s && OccursAt(s, t, j)
    ensures OccursAt(whole, t, off + j)
  {
    forall x | 0 <= x < |t|
      ensures whole[off + j + x] == t[x]
    {
      assert whole[off + j + x] == whole[off..off + |s|][j + x] == s[j..j + |t|][x];
    }
  }

  /** Where the trim stands in the text: after the leading whitespace. */
  lemma TrimAt(s: string)
    ensures var a := SpaceEnd(s, 0);
            a + |Trim(s)| <= |s| && s[a..a + |Trim(s)|] == Trim(s)
  {
  }

  /** The first piece of a split is a prefix of the text. */
  lemma SplitSpacesFirst(s: string)
    ensures OccursAt(s, SplitSpaces(s)[0], 0)
  {
    var k := FirstSpace(s, 0);
    if k == -1 {
      assert s[0..|s|] == s;
    } else {
      assert s[0..k] == s[..k];
    }
  }

  function DigitValue(c: char): nat
    requires IsDigit(c)
  {
    c as int - '0' as int
  }

  /** The decimal value of a digit string. */
  function DecimalValue(d: string): nat
    requires forall c :: c in d ==> IsDigit(c)
  {
    if d == [] then 0 else DecimalValue(d[..|d| - 1]) * 10 + DigitValue(d[|d| - 1])
  }

  function LeadingDigits(s: string): (d: string)
    ensures StartsWith(s, d)
    ensures forall c :: c in d ==> IsDigit(c)
    ensures |d| == |s| || !IsDigit(s[|d|])
  {
    if s != [] && IsDigit(s[0]) then [s[0]] + LeadingDigits(s[1..]) else []
  }

  /**
   * `parseInt(s, 10)`: leading whitespace skipped, one optional sign, the
   * longest run of decimal digits; None stands for NaN (no digit).
   */
  function ParseInt(s: string): (r: Option<int>)
    ensures r.None? <==> LeadingDigits(SignFree(TrimStart(s))) == []
  {
    var t := TrimStart(s);
    var d := LeadingDigits(SignFree(t));
    if d == [] then None
    else if t != [] && t[0] == '-' then Some(-(DecimalValue(d) as int))
    else Some(DecimalValue(d))
  }

  function SignFree(t: string): string {
    if t != [] && (t[0] == '-' || t[0] == '+') then t[1..] else t
  }
}
