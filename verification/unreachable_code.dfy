/**
 * Unreachable code after `return`: a line starting with the word
 * `return` ends the function, and every later line that is neither blank
 * nor a comment is reported over its whole width.
 */
module UnreachableCode {
  import opened Text

  /** `/^return\b/.test(line)`. */
  function IsTerminatingCommand(line: string): (b: bool)
    ensures b <==> StartsWith(line, "return") && (|line| == 6 || !IsWordChar(line[6]))
  {
    StartsWith(line, "return") && WordBoundary(line, 6)
  }

  /** A line that is neither blank nor a comment once trimmed. */
  predicate IsCode(line: string) {
    var t := Trim(line);
    t != [] && !StartsWith(t, "#")
  }

  /** A hint over the whole of line `line`: columns `[0, end)`. */
  datatype Unreachable = Unreachable(line: nat, end: nat)

  /**
   * `createUnreachableDiagnostics` from line `i` on: one hint per code
   * line, in order, covering the line.
   */
  function UnreachableFrom(lines: seq<string>, i: nat): (r: seq<Unreachable>)
    ensures forall d :: d in r <==> i <= d.line < |lines| && IsCode(lines[d.line]) && d.end == |lines[d.line]|
    ensures forall j, k :: 0 <= j < k < |r| ==> r[j].line < r[k].line
    ensures forall j :: 0 <= j < |r| ==> i <= r[j].line
    decreases |lines| - i
  {
    if i >= |lines| then []
    else
      var rest := UnreachableFrom(lines, i + 1);
      if IsCode(lines[i]) then [Unreachable(i, |lines[i]|)] + rest else rest
  }

  function CreateUnreachableDiagnostics(lines: seq<string>, startLine: nat): (r: seq<Unreachable>)
    ensures startLine >= |lines| ==> r == []
    ensures forall d :: d in r <==> startLine <= d.line < |lines| && IsCode(lines[d.line]) && d.end == |lines[d.line]|
  {
    UnreachableFrom(lines, startLine)
  }
}
