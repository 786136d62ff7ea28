/**
 * The infinite-recursion rule: a call made unconditionally by a function
 * that, following only unconditional calls, leads back to that function.
 */
module InfiniteRecursion {
  import opened Wrappers
  import opened Text
  import opened Patterns
  import opened FunctionIndex

  /** A call the search follows: unconditional, with no return known to come before it (absent means none). */
  predicate Followed(c: FunctionCall) {
    !c.isConditional && !c.returnBefore.GetOr(false)
  }

  /**
   * `isInfiniteRecursion(target, current, visited)`: a function already on
   * the search path answers whether it is the target; an unindexed one
   * answers no; otherwise its followed calls are tried in order, each with
   * its own copy of the path extended by `current`.
   */
  function Reaches(idx: Index, target: string, current: string, visited: set<string>): bool
    decreases |idx.units.Keys - visited|, 1, 0
  {
    if current in visited then current == target
    else match GetFunctionInfo(idx, current)
      case None => false
      case Some(info) => AnyCall(idx, target, info.calls, visited, current)
  }

  /** The loop over the calls of `current`, whose search path is `visited + {current}`. */
  function AnyCall(idx: Index, target: string, calls: seq<FunctionCall>, visited: set<string>, current: string): bool
    requires current in idx.units && current !in visited
    decreases |idx.units.Keys - visited|, 0, |calls|
  {
    if calls == [] then false
    else
      var c := calls[0];
      if !Followed(c) then AnyCall(idx, target, calls[1..], visited, current)
      else if c.functionName == target then true
      else
        RemovingOneShrinks(idx.units.Keys, visited, current);
        if Reaches(idx, target, c.functionName, visited + {current}) then true
        else AnyCall(idx, target, calls[1..], visited, current)
  }

  /** A call of the unit `self` that closes a cycle: it names `self`, or leads back to it. */
  predicate Infinite(idx: Index, self: string, c: FunctionCall) {
    Followed(c) && (c.functionName == self || Reaches(idx, self, c.functionName, {self}))
  }

  /** A warning on the `function ns:path` text of a line; `path` is the callee name after its last `:`. */
  datatype Warning = Warning(line: nat, start: int, end: int, path: string)

  /** The text after the last `:` of a function name (`split(":").pop()`). */
  function LastSegment(name: string): (r: string)
    ensures IndexOf(name, ":") == -1 ==> r == name
  {
    var parts := SplitOn(name, ":");
    parts[|parts| - 1]
  }

  /**
   * The loop of `checkInfiniteRecursion` over the calls of `self`. A
   * reported call on a line the document does not have makes `lineAt`
   * throw, modelled as `None`; a line whose text holds no function
   * reference gets no warning.
   */
  function Warnings(idx: Index, self: string, calls: seq<FunctionCall>, lines: seq<string>, classify: Classifier)
    : (r: Option<seq<Warning>>)
    ensures r.Some? ==> forall w :: w in r.value ==>
              exists c :: c in calls && c.line == w.line && Infinite(idx, self, c)
    ensures r.Some? ==> forall w :: w in r.value ==> w.line < |lines|
    decreases |calls|
  {
    if calls == [] then Some([])
    else
      var c := calls[0];
      var rest := Warnings(idx, self, calls[1..], lines, classify);
      if !Infinite(idx, self, c) then rest
      else if c.line >= |lines| then None
      else
        var text := lines[c.line];
        match classify(text).functionRef
        case None => rest
        case Some(f) =>
          var start := IndexOf(text, f.text);
          match rest
          case None => None
          case Some(ws) => Some([Warning(c.line, start, start + |f.text|, LastSegment(c.functionName))] + ws)
  }

  /**
   * `checkInfiniteRecursion` for the document at `filePath` with lines
   * `lines`. `enabled` is the configuration's `infiniteRecursion` entry:
   * the rule configuration has no such entry, so it is absent (`None`)
   * unless a caller supplies one, and an absent entry disables the rule.
   */
  function CheckInfiniteRecursion(enabled: Option<bool>, filePath: string, lines: seq<string>, idx: Index, classify: Classifier)
    : (r: Option<seq<Warning>>)
    ensures enabled != Some(true) ==> r == Some([])
    ensures GetFunctionInfoByFile(idx, filePath).None? ==> r == Some([])
  {
    if !enabled.GetOr(false) then Some([])
    else match GetFunctionInfoByFile(idx, filePath)
      case None => Some([])
      case Some(info) => Warnings(idx, info.fullPath, info.calls, lines, classify)
  }

  // --------------------------------------------------------------- lemmas

  /** `a` makes a followed call naming `b`. */
  ghost predicate Edge(idx: Index, a: string, b: string) {
    a in idx.units && exists c :: c in idx.units[a].calls && Followed(c) && c.functionName == b
  }

  /** A path of at least one followed call. */
  ghost predicate Chain(idx: Index, p: seq<string>) {
    |p| >= 2 && forall j :: 0 <= j < |p| - 1 ==> Edge(idx, p[j], p[j + 1])
  }

  ghost predicate Leads(idx: Index, a: string, b: string) {
    exists p :: Chain(idx, p) && p[0] == a && p[|p| - 1] == b
  }

  /** A followed call into the start of a chain extends it. */
  lemma ChainCons(idx: Index, a: string, q: seq<string>)
    requires Chain(idx, q) && Edge(idx, a, q[0])
    ensures Chain(idx, [a] + q) && ([a] + q)[0] == a && ([a] + q)[|q|] == q[|q| - 1]
  {
    var p := [a] + q;
    forall j | 0 <= j < |p| - 1 ensures Edge(idx, p[j], p[j + 1]) {
      if j > 0 { assert p[j] == q[j - 1] && p[j + 1] == q[j]; }
    }
  }

  /** A successful loop names the call it succeeded on. */
  lemma {:induction false} AnyCallWitness(idx: Index, target: string, calls: seq<FunctionCall>, visited: set<string>, current: string)
    requires current in idx.units && current !in visited
    requires AnyCall(idx, target, calls, visited, current)
    ensures exists c :: c in calls && Followed(c) &&
              (c.functionName == target || Reaches(idx, target, c.functionName, visited + {current}))
    decreases |calls|
  {
    var c := calls[0];
    if Followed(c) && (c.functionName == target || Reaches(idx, target, c.functionName, visited + {current})) {
    } else {
      AnyCallWitness(idx, target, calls[1..], visited, current);
      var d :| d in calls[1..] && Followed(d) &&
                 (d.functionName == target || Reaches(idx, target, d.functionName, visited + {current}));
      assert d in calls;
    }
  }

  /** The loop succeeds as soon as one followed call names the target or leads to it. */
  lemma {:induction false} AnyCallFinds(idx: Index, target: string, calls: seq<FunctionCall>, visited: set<string>, current: string, c: FunctionCall)
    requires current in idx.units && current !in visited
    requires c in calls && Followed(c)
    requires c.functionName == target || Reaches(idx, target, c.functionName, visited + {current})
    ensures AnyCall(idx, target, calls, visited, current)
    decreases |calls|
  {
    if calls[0] != c {
      AnyCallFinds(idx, target, calls[1..], visited, current, c);
    }
  }

  /** A positive answer is backed by a chain of followed calls (or the start is the target). */
  lemma {:induction false} ReachesSound(idx: Index, target: string, current: string, visited: set<string>)
    requires Reaches(idx, target, current, visited)
    ensures current == target || Leads(idx, current, target)
    decreases |idx.units.Keys - visited|
  {
    if current !in visited {
      var calls := idx.units[current].calls;
      AnyCallWitness(idx, target, calls, visited, current);
      var c :| c in calls && Followed(c) &&
                 (c.functionName == target || Reaches(idx, target, c.functionName, visited + {current}));
      assert Edge(idx, current, c.functionName);
      if c.functionName == target {
        assert Chain(idx, [current, target]);
      } else {
        RemovingOneShrinks(idx.units.Keys, visited, current);
        ReachesSound(idx, target, c.functionName, visited + {current});
        var q :| Chain(idx, q) && q[0] == c.functionName && q[|q| - 1] == target;
        ChainCons(idx, current, q);
      }
    }
  }

  /**
   * Conversely, a chain of followed calls from outside the search path to
   * the target, visiting no function twice before the target, is found.
   */
  lemma {:induction false} ReachesComplete(idx: Index, target: string, p: seq<string>, visited: set<string>)
    requires Chain(idx, p) && p[|p| - 1] == target
    requires forall j :: 0 <= j < |p| - 1 ==> p[j] !in visited
    requires forall j, k :: 0 <= j < k < |p| - 1 ==> p[j] != p[k]
    ensures Reaches(idx, target, p[0], visited)
    decreases |p|
  {
    assert Edge(idx, p[0], p[1]);
    var c :| c in idx.units[p[0]].calls && Followed(c) && c.functionName == p[1];
    if p[1] != target {
      var q := p[1..];
      assert forall j :: 0 <= j < |q| ==> q[j] == p[j + 1];
      assert Chain(idx, q);
      assert forall j :: 0 <= j < |q| - 1 ==> q[j] != p[0];
      ReachesComplete(idx, target, q, visited + {p[0]});
    }
    AnyCallFinds(idx, target, idx.units[p[0]].calls, visited, p[0], c);
  }

  /** Every warning sits on the line of a followed call of the document's unit that closes a cycle back to it. */
  lemma WarningMeansCycle(enabled: Option<bool>, filePath: string, lines: seq<string>, idx: Index, classify: Classifier, w: Warning)
    requires Wf(idx)
    requires var r := CheckInfiniteRecursion(enabled, filePath, lines, idx, classify);
             r.Some? && w in r.value
    ensures var info := GetFunctionInfoByFile(idx, filePath);
            info.Some? && Leads(idx, info.value.fullPath, info.value.fullPath) &&
            exists c :: c in info.value.calls && c.line == w.line && Followed(c)
  {
    var info := GetFunctionInfoByFile(idx, filePath).value;
    var self := info.fullPath;
    var c :| c in info.calls && c.line == w.line && Infinite(idx, self, c);
    assert self in idx.units && idx.units[self] == info;
    assert Edge(idx, self, c.functionName);
    if c.functionName == self {
      assert Chain(idx, [self, self]);
    } else {
      ReachesSound(idx, self, c.functionName, {self});
      var q :| Chain(idx, q) && q[0] == c.functionName && q[|q| - 1] == self;
      ChainCons(idx, self, q);
    }
  }

  /** A function that calls itself unconditionally, on a line naming a function, is warned about there. */
  lemma {:induction false} DirectSelfCallWarned(idx: Index, self: string, calls: seq<FunctionCall>, lines: seq<string>, classify: Classifier, c: FunctionCall)
    requires c in calls && Followed(c) && c.functionName == self
    requires forall d :: d in calls && Infinite(idx, self, d) ==> d.line < |lines|
    requires c.line < |lines| && classify(lines[c.line]).functionRef.Some?
    ensures var r := Warnings(idx, self, calls, lines, classify);
            r.Some? && exists w :: w in r.value && w.line == c.line
    decreases |calls|
  {
    var rest := Warnings(idx, self, calls[1..], lines, classify);
    NoThrow(idx, self, calls[1..], lines, classify);
    if calls[0] != c {
      DirectSelfCallWarned(idx, self, calls[1..], lines, classify, c);
    }
  }

  /** `lineAt` does not throw when every call that closes a cycle is on a line of the document. */
  lemma {:induction false} NoThrow(idx: Index, self: string, calls: seq<FunctionCall>, lines: seq<string>, classify: Classifier)
    requires forall d :: d in calls && Infinite(idx, self, d) ==> d.line < |lines|
    ensures Warnings(idx, self, calls, lines, classify).Some?
    decreases |calls|
  {
    if calls != [] {
      NoThrow(idx, self, calls[1..], lines, classify);
    }
  }

  /** With every call conditional no function is reached except through the search path itself. */
  lemma {:induction false} ConditionalCallsNeverFollowed(idx: Index, target: string, current: string, visited: set<string>)
    requires current !in visited
    requires forall k, c :: k in idx.units && c in idx.units[k].calls ==> c.isConditional
    ensures !Reaches(idx, target, current, visited)
  {
    if Reaches(idx, target, current, visited) {
      AnyCallWitness(idx, target, idx.units[current].calls, visited, current);
    }
  }
}
