/**
 * The workspace function index: every `.mcfunction` file parsed into its
 * function calls and scoreboard changes, the inverse caller graph, the
 * incremental re-index / removal of one file, and the score states that
 * callers establish before calling a function.
 */
module FunctionIndex {
  import opened Wrappers
  import opened Text
  import opened Patterns

  /**
   * A `function ns:path` reference on logical line `line`. `returnBefore`
   * is the optional `hasUnconditionalReturnBefore` flag, which the parser
   * never sets.
   */
  datatype FunctionCall = FunctionCall(functionName: string, line: nat, isConditional: bool, returnBefore: Option<bool>)

  /** The operation of a scoreboard change; `OpUnknown` is `scoreboard players operation`. */
  datatype ScoreOp = OpSet(value: int) | OpAdd(amount: int) | OpRemove(amount: int) | OpReset | OpUnknown

  datatype ScoreChange = ScoreChange(
    target: string, objective: string, operation: ScoreOp, line: nat, isConditional: bool)

  datatype FunctionInfo = FunctionInfo(
    namespace: string, path: string, fullPath: string, filePath: string,
    calls: seq<FunctionCall>, scoreChanges: seq<ScoreChange>)

  /** A `data/<namespace>/function(s)` directory of a workspace folder. */
  datatype DatapackRoot = DatapackRoot(rootPath: string, namespace: string, functionsPath: string)

  datatype CallerInfo = CallerInfo(callerPath: string, line: nat, isConditional: bool)

  /** What the file system holds at a path: nothing, an unreadable file, or its text. */
  datatype FileState = Missing | Unreadable | Content(text: string)

  /**
   * The index state. `order` is the insertion order of `units` (a JS Map
   * iterates in that order); `files` maps normalised file paths to full
   * function names; `callers` maps a callee name to the call sites naming it.
   */
  datatype Index = Index(
    order: seq<string>,
    units: map<string, FunctionInfo>,
    files: map<string, string>,
    callers: map<string, seq<CallerInfo>>,
    initialized: bool,
    indexing: bool)

  const EmptyIndex := Index([], map[], map[], map[], false, false)

  // ---------------------------------------------------------------- paths

  /** Backslashes become slashes, then the path is lower-cased. */
  function NormalizePath(p: string): (r: string)
    ensures |r| == |p|
    ensures forall i :: 0 <= i < |p| ==> r[i] != '\\' && r[i] == LowerChar(if p[i] == '\\' then '/' else p[i])
  {
    Lower(ReplaceChar(p, '\\', '/'))
  }

  /** `path.relative(base, file)` for a file strictly below `base`. */
  function RelativePath(base: string, file: string): string {
    if |file| > |base| && StartsWith(file, base) && (file[|base|] == '/' || file[|base|] == '\\')
    then file[|base| + 1..]
    else file
  }

  /** `<namespace>:<relative path without .mcfunction, with forward slashes>`. */
  function FunctionPathOf(filePath: string, root: DatapackRoot): (r: string)
    ensures StartsWith(r, root.namespace + ":")
  {
    var rel := RelativePath(root.functionsPath, filePath);
    var withoutExt := if EndsWith(rel, ".mcfunction") then rel[..|rel| - 11] else rel;
    root.namespace + ":" + ReplaceChar(withoutExt, '\\', '/')
  }

  // --------------------------------------------------------------- parsing

  /**
   * Logical lines: every raw line is trimmed; one ending in `\` loses the
   * backslash and is continued, after a space, by the next. A continuation
   * still open at the end of the file becomes a final line.
   */
  function LogicalLines(raw: seq<string>, acc: string): (r: seq<string>)
    ensures |r| <= |raw| + (if acc == "" then 0 else 1)
    decreases |raw|
  {
    if raw == [] then (if acc != "" then [acc] else [])
    else
      var t := Trim(raw[0]);
      if EndsWith(t, "\\") then LogicalLines(raw[1..], acc + t[..|t| - 1] + " ")
      else [acc + t] + LogicalLines(raw[1..], "")
  }

  /** The call a trimmed line makes, if it names a function. */
  function CallOf(trimmed: string, m: Matches, i: nat): (r: Option<FunctionCall>)
    ensures r.Some? <==> m.functionRef.Some?
    ensures r.Some? ==> r.value.line == i && r.value.functionName == m.functionRef.value.name
    ensures r.Some? ==>
              (r.value.isConditional <==> StartsWith(trimmed, "execute") && (m.hasIfUnless || m.hasOn || m.hasRebind))
  {
    match m.functionRef
    case None => None
    case Some(f) =>
      Some(FunctionCall(f.name, i, StartsWith(trimmed, "execute") && (m.hasIfUnless || m.hasOn || m.hasRebind), None))
  }

  /**
   * The score change a trimmed line makes: the first of set, add/remove,
   * reset and operation that matches (the regexes without `\$?`).
   */
  function ChangeOf(trimmed: string, m: Matches, i: nat): (r: Option<ScoreChange>)
    ensures r.Some? ==> r.value.line == i && (r.value.isConditional <==> StartsWith(trimmed, "execute"))
    ensures StartsWith(trimmed, "$") ==> r.None?
    ensures r.None? <==>
              StartsWith(trimmed, "$") ||
              (m.setCmd.None? && m.addCmd.None? && m.resetCmd.None? && m.operationCmd.None?)
    ensures !StartsWith(trimmed, "$") && m.setCmd.Some? ==>
              r.value.operation == OpSet(m.setCmd.value.value) && r.value.target == m.setCmd.value.target
    ensures !StartsWith(trimmed, "$") && m.setCmd.None? && m.addCmd.None? && m.resetCmd.Some? ==>
              r.value.operation == OpReset && r.value.objective == m.resetCmd.value.objective.GetOr("*")
  {
    var p := Plain(trimmed, m);
    var cond := StartsWith(trimmed, "execute");
    if p.setCmd.Some? then
      var s := p.setCmd.value;
      Some(ScoreChange(s.target, s.objective, OpSet(s.value), i, cond))
    else if p.addCmd.Some? then
      var a := p.addCmd.value;
      Some(ScoreChange(a.target, a.objective, if a.isAdd then OpAdd(a.amount) else OpRemove(a.amount), i, cond))
    else if p.resetCmd.Some? then
      var z := p.resetCmd.value;
      Some(ScoreChange(z.target, z.objective.GetOr("*"), OpReset, i, cond))
    else if p.operationCmd.Some? then
      var o := p.operationCmd.value;
      Some(ScoreChange(o.target, o.objective, OpUnknown, i, cond))
    else None
  }

  function LineCall(lines: seq<string>, classify: Classifier, i: nat): (r: Option<FunctionCall>)
    requires i < |lines|
    ensures r.Some? ==> r.value.line == i
  {
    var t := Trim(lines[i]);
    if Skipped(t) then None else CallOf(t, classify(t), i)
  }

  function LineChange(lines: seq<string>, classify: Classifier, i: nat): (r: Option<ScoreChange>)
    requires i < |lines|
    ensures r.Some? ==> r.value.line == i
  {
    var t := Trim(lines[i]);
    if Skipped(t) then None else ChangeOf(t, classify(t), i)
  }

  function LineCalls(lines: seq<string>, classify: Classifier): (r: seq<Option<FunctionCall>>)
    ensures |r| == |lines| && forall k :: 0 <= k < |lines| ==> r[k] == LineCall(lines, classify, k)
  {
    seq(|lines|, k requires 0 <= k < |lines| => LineCall(lines, classify, k))
  }

  function LineChanges(lines: seq<string>, classify: Classifier): (r: seq<Option<ScoreChange>>)
    ensures |r| == |lines| && forall k :: 0 <= k < |lines| ==> r[k] == LineChange(lines, classify, k)
  {
    seq(|lines|, k requires 0 <= k < |lines| => LineChange(lines, classify, k))
  }

  /** The positions from `i` on where `opts` holds a value, in increasing order. */
  function PresentAt<T>(opts: seq<Option<T>>, i: nat): (r: seq<nat>)
    requires i <= |opts|
    ensures forall j :: 0 <= j < |r| ==> i <= r[j] < |opts| && opts[r[j]].Some?
    ensures forall k :: i <= k < |opts| && opts[k].Some? ==> k in r
    ensures forall j, j' :: 0 <= j < j' < |r| ==> r[j] < r[j']
    decreases |opts| - i
  {
    if i == |opts| then []
    else
      var rest := PresentAt(opts, i + 1);
      if opts[i].None? then rest
      else
        var r := [i] + rest;
        assert forall j :: 1 <= j < |r| ==> r[j] == rest[j - 1];
        r
  }

  /** The values of `opts`, in position order. */
  function Present<T>(opts: seq<Option<T>>): (r: seq<T>)
  {
    var at := PresentAt(opts, 0);
    seq(|at|, j requires 0 <= j < |at| => opts[at[j]].value)
  }

  /** Each value comes from the position listed for it, and every position holding one is listed. */
  lemma PresentListed<T>(opts: seq<Option<T>>)
    ensures var r := Present(opts);
            var at := PresentAt(opts, 0);
            && |r| == |at|
            && (forall j :: 0 <= j < |r| ==> at[j] < |opts| && opts[at[j]] == Some(r[j]))
            && (forall k :: 0 <= k < |opts| && opts[k].Some? ==> exists j :: 0 <= j < |r| && at[j] == k)
  {
    var at := PresentAt(opts, 0);
    forall k | 0 <= k < |opts| && opts[k].Some? ensures exists j :: 0 <= j < |at| && at[j] == k {
      assert k in at;
    }
  }

  /** The calls of a file's logical lines: one per line that names a function, in line order. */
  function Calls(lines: seq<string>, classify: Classifier): seq<FunctionCall> {
    Present(LineCalls(lines, classify))
  }

  /** The score changes of a file's logical lines: at most one per line, in line order. */
  function Changes(lines: seq<string>, classify: Classifier): seq<ScoreChange> {
    Present(LineChanges(lines, classify))
  }

  /** Each call comes from its own line, every line naming a function contributes, and lines keep their order. */
  lemma CallsListed(lines: seq<string>, classify: Classifier)
    ensures var r := Calls(lines, classify);
            && (forall j :: 0 <= j < |r| ==> r[j].line < |lines| && LineCall(lines, classify, r[j].line) == Some(r[j]))
            && (forall k :: 0 <= k < |lines| && LineCall(lines, classify, k).Some? ==> exists j :: 0 <= j < |r| && r[j].line == k)
            && (forall j, j' :: 0 <= j < j' < |r| ==> r[j].line < r[j'].line)
  {
    var opts := LineCalls(lines, classify);
    var at := PresentAt(opts, 0);
    var r := Calls(lines, classify);
    PresentListed(opts);
    assert forall j :: 0 <= j < |r| ==> r[j].line == at[j];
  }

  /** Each change comes from its own line, every line changing a score contributes, and lines keep their order. */
  lemma ChangesListed(lines: seq<string>, classify: Classifier)
    ensures var r := Changes(lines, classify);
            && (forall j :: 0 <= j < |r| ==> r[j].line < |lines| && LineChange(lines, classify, r[j].line) == Some(r[j]))
            && (forall k :: 0 <= k < |lines| && LineChange(lines, classify, k).Some? ==> exists j :: 0 <= j < |r| && r[j].line == k)
            && (forall j, j' :: 0 <= j < j' < |r| ==> r[j].line < r[j'].line)
  {
    var opts := LineChanges(lines, classify);
    var at := PresentAt(opts, 0);
    var r := Changes(lines, classify);
    PresentListed(opts);
    assert forall j :: 0 <= j < |r| ==> r[j].line == at[j];
  }

  /**
   * Parses one file below `root`. A file that cannot be read still yields
   * its unit, with no calls and no changes.
   */
  function ParseFunctionFile(filePath: string, root: DatapackRoot, file: FileState, classify: Classifier): (info: FunctionInfo)
    ensures info.fullPath == FunctionPathOf(filePath, root) && info.filePath == filePath
    ensures !file.Content? ==> info.calls == [] && info.scoreChanges == []
    ensures file.Content? ==>
              var lines := LogicalLines(SplitLines(file.text), "");
              info.calls == Calls(lines, classify) && info.scoreChanges == Changes(lines, classify)
  {
    var fullPath := FunctionPathOf(filePath, root);
    var parts := SplitOn(fullPath, ":");
    var path := if |parts| >= 2 then parts[1] else "";
    var lines := if file.Content? then LogicalLines(SplitLines(file.text), "") else [];
    FunctionInfo(parts[0], path, fullPath, filePath, Calls(lines, classify), Changes(lines, classify))
  }

  // ---------------------------------------------------------- caller graph

  function EdgeOf(caller: string, c: FunctionCall): CallerInfo {
    CallerInfo(caller, c.line, c.isConditional)
  }

  predicate Names(calls: seq<FunctionCall>, callee: string) {
    exists c :: c in calls && c.functionName == callee
  }

  /** `e` is the call site, in unit `e.callerPath`, of a call naming `callee`. */
  ghost predicate IsEdge(units: map<string, FunctionInfo>, callee: string, e: CallerInfo) {
    e.callerPath in units &&
    exists c :: c in units[e.callerPath].calls && c.functionName == callee && EdgeOf(e.callerPath, c) == e
  }

  /** `callers` is exactly the inverse of the calls of `units`, with no empty list. */
  ghost predicate IsInverse(callers: map<string, seq<CallerInfo>>, units: map<string, FunctionInfo>) {
    && (forall k :: k in callers ==> callers[k] != [])
    && (forall k, e :: k in callers && e in callers[k] <==> IsEdge(units, k, e))
  }

  /** The index invariant kept by every operation. */
  ghost predicate Wf(idx: Index) {
    && (forall k :: k in idx.order <==> k in idx.units)
    && (forall k :: k in idx.units ==> idx.units[k].fullPath == k)
    && IsInverse(idx.callers, idx.units)
  }

  function Push(g: map<string, seq<CallerInfo>>, k: string, e: CallerInfo): map<string, seq<CallerInfo>> {
    g[k := (if k in g then g[k] else []) + [e]]
  }

  /** Appends the call sites of `calls`, made by `caller`, to the lists of their callees. */
  function AddEdges(g: map<string, seq<CallerInfo>>, caller: string, calls: seq<FunctionCall>): (r: map<string, seq<CallerInfo>>)
    ensures forall k :: k in r <==> k in g || Names(calls, k)
    ensures forall k, e :: k in r && e in r[k] <==>
              (k in g && e in g[k]) || (exists c :: c in calls && c.functionName == k && EdgeOf(caller, c) == e)
    ensures forall k :: k in g && g[k] != [] ==> r[k] != []
    ensures forall k :: k in r && !(k in g) ==> r[k] != []
    decreases |calls|
  {
    if calls == [] then g
    else
      var r := AddEdges(Push(g, calls[0].functionName, EdgeOf(caller, calls[0])), caller, calls[1..]);
      assert forall c :: c in calls <==> c == calls[0] || c in calls[1..];
      r
  }

  /** `buildCallerGraph`: the edges of every unit, visited in index order. */
  function BuildCallerGraph(order: seq<string>, units: map<string, FunctionInfo>): (r: map<string, seq<CallerInfo>>)
    requires forall i :: 0 <= i < |order| ==> order[i] in units
    ensures forall k :: k in r ==> r[k] != []
    ensures forall k, e :: k in r && e in r[k] <==> e.callerPath in order && IsEdge(units, k, e)
    decreases |order|
  {
    if order == [] then map[]
    else
      var last := order[|order| - 1];
      var prefix := order[..|order| - 1];
      assert forall p :: p in order <==> p in prefix || p == last;
      AddEdges(BuildCallerGraph(prefix, units), last, units[last].calls)
  }

  // ----------------------------------------------------- lookup and teardown

  function GetFunctionInfo(idx: Index, functionPath: string): Option<FunctionInfo> {
    if functionPath in idx.units then Some(idx.units[functionPath]) else None
  }

  function GetCallers(idx: Index, functionPath: string): seq<CallerInfo> {
    if functionPath in idx.callers then idx.callers[functionPath] else []
  }

  function GetFunctionInfoByFile(idx: Index, filePath: string): (r: Option<FunctionInfo>)
    ensures r.Some? ==> NormalizePath(filePath) in idx.files && r == GetFunctionInfo(idx, idx.files[NormalizePath(filePath)])
  {
    var np := NormalizePath(filePath);
    if np in idx.files && idx.files[np] != "" then GetFunctionInfo(idx, idx.files[np]) else None
  }

  /** The call sites of `l` not made by `caller`. */
  function Keep(l: seq<CallerInfo>, caller: string): (r: seq<CallerInfo>)
    ensures forall e :: e in r <==> e in l && e.callerPath != caller
    ensures |r| <= |l|
  {
    if l == [] then []
    else (if l[0].callerPath != caller then [l[0]] else []) + Keep(l[1..], caller)
  }

  lemma {:induction false} KeepNothing(l: seq<CallerInfo>, caller: string)
    requires forall e :: e in l ==> e.callerPath != caller
    ensures Keep(l, caller) == l
  {
    if l != [] {
      KeepNothing(l[1..], caller);
    }
  }

  /**
   * `r` is `g` after dropping `caller`'s call sites from the list of every
   * callee `calls` name: a list left empty loses its key, the rest stay.
   */
  ghost predicate Dropped(g: map<string, seq<CallerInfo>>, caller: string, calls: seq<FunctionCall>, r: map<string, seq<CallerInfo>>) {
    && (forall k :: k in r <==> k in g && (Names(calls, k) ==> Keep(g[k], caller) != []))
    && (forall k :: k in r ==> r[k] == (if Names(calls, k) then Keep(g[k], caller) else g[k]))
  }

  /** One callee's list loses `caller`'s call sites; an emptied list loses its key. */
  function DropOne(g: map<string, seq<CallerInfo>>, caller: string, n: string): map<string, seq<CallerInfo>> {
    if n in g then (var l := Keep(g[n], caller); if l == [] then g - {n} else g[n := l]) else g
  }

  /**
   * For every call of the torn-down unit, the callee's list loses the
   * unit's call sites; a list left empty loses its key.
   */
  function DropCaller(g: map<string, seq<CallerInfo>>, caller: string, calls: seq<FunctionCall>): (r: map<string, seq<CallerInfo>>)
    ensures Dropped(g, caller, calls, r)
    decreases |calls|
  {
    if calls == [] then g
    else
      var r := DropCaller(DropOne(g, caller, calls[0].functionName), caller, calls[1..]);
      DropStep(g, caller, calls, r);
      r
  }

  lemma DropStep(g: map<string, seq<CallerInfo>>, caller: string, calls: seq<FunctionCall>, r: map<string, seq<CallerInfo>>)
    requires calls != [] && Dropped(DropOne(g, caller, calls[0].functionName), caller, calls[1..], r)
    ensures Dropped(g, caller, calls, r)
  {
    var n := calls[0].functionName;
    var g1 := DropOne(g, caller, n);
    forall k ensures Names(calls, k) <==> k == n || Names(calls[1..], k) {
      assert forall c :: c in calls <==> c == calls[0] || c in calls[1..];
    }
    if n in g {
      KeepNothing(Keep(g[n], caller), caller);
    }
    forall k ensures (k in r <==> k in g && (Names(calls, k) ==> Keep(g[k], caller) != []))
                  && (k in r ==> r[k] == (if Names(calls, k) then Keep(g[k], caller) else g[k])) {
      if k != n {
        assert (k in g1 <==> k in g) && (k in g1 ==> g1[k] == g[k]);
      }
    }
  }

  function Without(s: seq<string>, x: string): (r: seq<string>)
    ensures forall y :: y in r <==> y in s && y != x
  {
    if s == [] then [] else (if s[0] != x then [s[0]] else []) + Without(s[1..], x)
  }

  /** The part of re-indexing and removal that forgets the unit a file held. */
  function Teardown(idx: Index, np: string): (r: Index)
    ensures r.initialized == idx.initialized && r.indexing == idx.indexing
    ensures np !in r.files
    ensures np !in idx.files ==> r == idx
  {
    if np in idx.files then
      var fp := idx.files[np];
      if fp != "" then
        var callers := if fp in idx.units then DropCaller(idx.callers, fp, idx.units[fp].calls) else idx.callers;
        idx.(order := Without(idx.order, fp), units := idx.units - {fp}, files := idx.files - {np}, callers := callers)
      else idx.(files := idx.files - {np})
    else idx
  }

  /** `removeFileFromIndex`. */
  function RemoveFileFromIndex(idx: Index, filePath: string): (r: Index)
    ensures GetFunctionInfoByFile(r, filePath).None?
    ensures NormalizePath(filePath) !in idx.files ==> r == idx
  {
    Teardown(idx, NormalizePath(filePath))
  }

  /** The first root whose normalised functions directory is a prefix of the normalised path. */
  function FirstRoot(roots: seq<DatapackRoot>, np: string): (r: Option<DatapackRoot>)
    ensures r.Some? ==> exists i :: (0 <= i < |roots| && roots[i] == r.value &&
              (forall j :: 0 <= j < i ==> !StartsWith(np, NormalizePath(roots[j].functionsPath))))
    ensures r.Some? ==> StartsWith(np, NormalizePath(r.value.functionsPath))
    ensures r.None? <==> forall j :: 0 <= j < |roots| ==> !StartsWith(np, NormalizePath(roots[j].functionsPath))
  {
    if roots == [] then None
    else if StartsWith(np, NormalizePath(roots[0].functionsPath)) then Some(roots[0])
    else
      var r := FirstRoot(roots[1..], np);
      assert r.Some? ==> exists i :: (1 <= i < |roots| && roots[i] == r.value &&
        (forall j :: 0 <= j < i ==> !StartsWith(np, NormalizePath(roots[j].functionsPath)))) by {
        if r.Some? {
          var i :| 0 <= i < |roots[1..]| && roots[1..][i] == r.value &&
            (forall j :: 0 <= j < i ==> !StartsWith(np, NormalizePath(roots[1..][j].functionsPath)));
          assert roots[i + 1] == r.value;
        }
      }
      r
  }

  /** Registers a parsed unit under its name and its file and appends its call sites. */
  function Insert(idx: Index, np: string, info: FunctionInfo): Index {
    idx.(order := if info.fullPath in idx.units then idx.order else idx.order + [info.fullPath],
         units := idx.units[info.fullPath := info],
         files := idx.files[np := info.fullPath],
         callers := AddEdges(idx.callers, info.fullPath, info.calls))
  }

  /**
   * `reindexFile`: the file's old unit is torn down; when a root holds the
   * file and it exists, it is parsed again and registered.
   */
  function ReindexFile(idx: Index, filePath: string, roots: seq<DatapackRoot>, file: FileState, classify: Classifier): (r: Index)
    ensures var np := NormalizePath(filePath);
            match FirstRoot(roots, np)
            case Some(root) =>
              if file.Missing? then r == Teardown(idx, np)
              else GetFunctionInfoByFile(r, filePath) == Some(ParseFunctionFile(filePath, root, file, classify))
            case None => r == Teardown(idx, np)
  {
    var np := NormalizePath(filePath);
    var torn := Teardown(idx, np);
    match FirstRoot(roots, np)
    case None => torn
    case Some(root) =>
      if file.Missing? then torn
      else
        var info := ParseFunctionFile(filePath, root, file, classify);
        InsertFinds(torn, filePath, info, root);
        Insert(torn, np, info)
  }

  /** A unit registered for a file is what the file's lookup answers. */
  lemma InsertFinds(idx: Index, filePath: string, info: FunctionInfo, root: DatapackRoot)
    requires StartsWith(info.fullPath, root.namespace + ":")
    ensures GetFunctionInfoByFile(Insert(idx, NormalizePath(filePath), info), filePath) == Some(info)
  {
    assert info.fullPath != [] by { assert |info.fullPath| >= |root.namespace + ":"|; }
  }

  /** A file found under a root by the workspace scan, with what reading it gives. */
  datatype Discovered = Discovered(root: DatapackRoot, filePath: string, file: FileState)

  /** One discovered unit registered under its name and its file; call sites come later. */
  function RegisterOne(idx: Index, np: string, info: FunctionInfo): (r: Index)
    requires forall k :: k in idx.order <==> k in idx.units
    requires forall k :: k in idx.units ==> idx.units[k].fullPath == k
    ensures forall k :: k in r.order <==> k in r.units
    ensures forall k :: k in r.units ==> r.units[k].fullPath == k
    ensures r.units.Keys == idx.units.Keys + {info.fullPath} && r.files.Keys == idx.files.Keys + {np}
  {
    idx.(order := if info.fullPath in idx.units then idx.order else idx.order + [info.fullPath],
         units := idx.units[info.fullPath := info],
         files := idx.files[np := info.fullPath])
  }

  function Register(idx: Index, ds: seq<Discovered>, classify: Classifier): (r: Index)
    requires forall k :: k in idx.order <==> k in idx.units
    requires forall k :: k in idx.units ==> idx.units[k].fullPath == k
    ensures forall k :: k in r.order <==> k in r.units
    ensures forall k :: k in r.units ==> r.units[k].fullPath == k
    ensures idx.units.Keys <= r.units.Keys && idx.files.Keys <= r.files.Keys
    ensures forall i :: 0 <= i < |ds| ==> FunctionPathOf(ds[i].filePath, ds[i].root) in r.units
    ensures forall i :: 0 <= i < |ds| ==> NormalizePath(ds[i].filePath) in r.files
    decreases |ds|
  {
    if ds == [] then idx
    else
      var d := ds[0];
      var info := ParseFunctionFile(d.filePath, d.root, d.file, classify);
      var next := RegisterOne(idx, NormalizePath(d.filePath), info);
      var r := Register(next, ds[1..], classify);
      assert info.fullPath in next.units;
      Covered(ds, r.units.Keys, r.files.Keys);
      r
  }

  /** The first file and those after it are all registered, so every file is. */
  lemma Covered(ds: seq<Discovered>, units: set<string>, files: set<string>)
    requires ds != []
    requires FunctionPathOf(ds[0].filePath, ds[0].root) in units && NormalizePath(ds[0].filePath) in files
    requires forall i :: 0 <= i < |ds[1..]| ==> FunctionPathOf(ds[1..][i].filePath, ds[1..][i].root) in units
    requires forall i :: 0 <= i < |ds[1..]| ==> NormalizePath(ds[1..][i].filePath) in files
    ensures forall i :: 0 <= i < |ds| ==> FunctionPathOf(ds[i].filePath, ds[i].root) in units
    ensures forall i :: 0 <= i < |ds| ==> NormalizePath(ds[i].filePath) in files
  {
    forall i | 0 < i < |ds|
      ensures FunctionPathOf(ds[i].filePath, ds[i].root) in units && NormalizePath(ds[i].filePath) in files
    {
      assert ds[i] == ds[1..][i - 1];
    }
  }

  /**
   * `indexWorkspace`: a no-op while an indexing run is in progress;
   * otherwise every discovered file is parsed and the caller graph rebuilt.
   */
  function IndexWorkspace(idx: Index, ds: seq<Discovered>, classify: Classifier): (r: Index)
    ensures idx.indexing ==> r == idx
    ensures !idx.indexing ==> Wf(r) && r.initialized && !r.indexing
    ensures !idx.indexing ==> forall i :: 0 <= i < |ds| ==>
              GetFunctionInfo(r, FunctionPathOf(ds[i].filePath, ds[i].root)).Some?
  {
    if idx.indexing then idx
    else
      var reg := Register(EmptyIndex, ds, classify);
      var callers := BuildCallerGraph(reg.order, reg.units);
      reg.(callers := callers, initialized := true, indexing := false)
  }

  // ------------------------------------------------- lifecycle properties

  /** Two inverses of the same units hold the same keys and the same call sites. */
  lemma InverseUnique(a: map<string, seq<CallerInfo>>, b: map<string, seq<CallerInfo>>, units: map<string, FunctionInfo>)
    requires IsInverse(a, units) && IsInverse(b, units)
    ensures a.Keys == b.Keys
    ensures forall k, e :: k in a ==> (e in a[k] <==> e in b[k])
  {
    forall k | k in a ensures k in b {
      var e := a[k][0];
      assert e in a[k];
    }
    forall k | k in b ensures k in a {
      var e := b[k][0];
      assert e in b[k];
    }
  }

  /** The graph rebuilt from scratch is the inverse of the calls. */
  lemma BuildIsInverse(order: seq<string>, units: map<string, FunctionInfo>)
    requires forall k :: k in order <==> k in units
    ensures IsInverse(BuildCallerGraph(order, units), units)
  {
  }

  /** Tearing down a unit removes exactly its call sites and keeps the invariant. */
  lemma TeardownKeepsWf(idx: Index, np: string)
    requires Wf(idx)
    ensures Wf(Teardown(idx, np))
    ensures np in idx.files && idx.files[np] != "" && idx.files[np] in idx.units ==>
              var fp := idx.files[np];
              var r := Teardown(idx, np);
              fp !in r.units && (forall k, e :: k in r.callers && e in r.callers[k] ==> e.callerPath != fp)
  {
    if np in idx.files && idx.files[np] != "" {
      var fp := idx.files[np];
      var r := Teardown(idx, np);
      var units' := idx.units - {fp};
      if fp in idx.units {
        var calls := idx.units[fp].calls;
        forall k, e | k in r.callers && e in r.callers[k] ensures IsEdge(units', k, e) {
          if Names(calls, k) {
            assert e in idx.callers[k] && e.callerPath != fp;
          } else {
            assert e in idx.callers[k];
            assert IsEdge(idx.units, k, e);
          }
        }
        forall k, e | IsEdge(units', k, e) ensures k in r.callers && e in r.callers[k] {
          assert IsEdge(idx.units, k, e);
          assert e in idx.callers[k];
          assert e in Keep(idx.callers[k], fp);
        }
        forall k | k in r.callers ensures r.callers[k] != [] {
        }
      } else {
        assert units' == idx.units;
      }
    }
  }

  /** Registering a unit under a fresh name appends exactly its call sites. */
  lemma InsertKeepsWf(idx: Index, np: string, info: FunctionInfo)
    requires Wf(idx) && info.fullPath !in idx.units
    ensures Wf(Insert(idx, np, info))
  {
    var r := Insert(idx, np, info);
    var f := info.fullPath;
    forall k, e | k in r.callers && e in r.callers[k] ensures IsEdge(r.units, k, e) {
      if k in idx.callers && e in idx.callers[k] {
        assert IsEdge(idx.units, k, e);
        var c :| c in idx.units[e.callerPath].calls && c.functionName == k && EdgeOf(e.callerPath, c) == e;
        assert r.units[e.callerPath] == idx.units[e.callerPath];
      }
    }
    forall k, e | IsEdge(r.units, k, e) ensures k in r.callers && e in r.callers[k] {
      if e.callerPath != f {
        var c :| c in r.units[e.callerPath].calls && c.functionName == k && EdgeOf(e.callerPath, c) == e;
        assert IsEdge(idx.units, k, e);
      }
    }
  }

  /**
   * Re-indexing keeps the invariant, provided the re-parsed function name
   * is not already held by another file's unit.
   */
  lemma ReindexKeepsWf(idx: Index, filePath: string, roots: seq<DatapackRoot>, file: FileState, classify: Classifier)
    requires Wf(idx)
    requires forall root :: FirstRoot(roots, NormalizePath(filePath)) == Some(root) ==>
               FunctionPathOf(filePath, root) !in Teardown(idx, NormalizePath(filePath)).units
    ensures Wf(ReindexFile(idx, filePath, roots, file, classify))
  {
    var np := NormalizePath(filePath);
    TeardownKeepsWf(idx, np);
    match FirstRoot(roots, np)
    case None =>
    case Some(root) =>
      if !file.Missing? {
        InsertKeepsWf(Teardown(idx, np), np, ParseFunctionFile(filePath, root, file, classify));
      }
  }

  /** Removal keeps the invariant. */
  lemma RemoveKeepsWf(idx: Index, filePath: string)
    requires Wf(idx)
    ensures Wf(RemoveFileFromIndex(idx, filePath))
  {
    TeardownKeepsWf(idx, NormalizePath(filePath));
  }

  lemma WithoutAppended(s: seq<string>, x: string)
    requires x !in s
    ensures Without(s + [x], x) == s
  {
    if s != [] {
      assert (s + [x])[1..] == s[1..] + [x];
      WithoutAppended(s[1..], x);
    }
  }

  /** Tearing down a freshly inserted unit gives back the index it was inserted into. */
  lemma TeardownUndoesInsert(torn: Index, np: string, info: FunctionInfo)
    requires Wf(torn) && info.fullPath !in torn.units && np !in torn.files && info.fullPath != ""
    ensures var back := Teardown(Insert(torn, np, info), np);
            back.units == torn.units && back.files == torn.files && back.order == torn.order
  {
    var f := info.fullPath;
    assert f !in torn.order;
    WithoutAppended(torn.order, f);
    assert (torn.units[f := info]) - {f} == torn.units;
    assert (torn.files[np := f]) - {np} == torn.files;
  }

  /**
   * Re-indexing the same file twice with the same content gives the same
   * functions, file mapping, insertion order and call sites as doing it once.
   */
  lemma ReindexIdempotent(idx: Index, filePath: string, roots: seq<DatapackRoot>, file: FileState, classify: Classifier)
    requires Wf(idx)
    requires forall root :: FirstRoot(roots, NormalizePath(filePath)) == Some(root) ==>
               FunctionPathOf(filePath, root) !in Teardown(idx, NormalizePath(filePath)).units
    ensures var once := ReindexFile(idx, filePath, roots, file, classify);
            var twice := ReindexFile(once, filePath, roots, file, classify);
            && twice.units == once.units && twice.files == once.files && twice.order == once.order
            && twice.callers.Keys == once.callers.Keys
            && (forall k, e :: k in once.callers ==> (e in twice.callers[k] <==> e in once.callers[k]))
  {
    var np := NormalizePath(filePath);
    var once := ReindexFile(idx, filePath, roots, file, classify);
    var torn := Teardown(idx, np);
    match FirstRoot(roots, np)
    case None =>
      assert once == torn;
    case Some(root) =>
      if file.Missing? {
        assert once == torn;
      } else {
        var info := ParseFunctionFile(filePath, root, file, classify);
        assert info.fullPath != "" by { assert StartsWith(info.fullPath, root.namespace + ":"); }
        assert once == Insert(torn, np, info);
        TeardownKeepsWf(idx, np);
        InsertKeepsWf(torn, np, info);
        var torn2 := Teardown(once, np);
        TeardownUndoesInsert(torn, np, info);
        TeardownKeepsWf(once, np);
        InsertKeepsWf(torn2, np, info);
        var twice := ReindexFile(once, filePath, roots, file, classify);
        assert twice == Insert(torn2, np, info);
        InverseUnique(twice.callers, once.callers, once.units);
      }
  }

  /**
   * Removing a file and re-adding it is what re-indexing it does, and the
   * file's unit is the one parsed from its content.
   */
  lemma RemoveThenReindex(idx: Index, filePath: string, roots: seq<DatapackRoot>, file: FileState, classify: Classifier)
    ensures ReindexFile(RemoveFileFromIndex(idx, filePath), filePath, roots, file, classify)
              == ReindexFile(idx, filePath, roots, file, classify)
    ensures forall root :: FirstRoot(roots, NormalizePath(filePath)) == Some(root) && !file.Missing? ==>
              GetFunctionInfoByFile(ReindexFile(RemoveFileFromIndex(idx, filePath), filePath, roots, file, classify), filePath)
                == Some(ParseFunctionFile(filePath, root, file, classify))
  {
    var np := NormalizePath(filePath);
    assert Teardown(Teardown(idx, np), np) == Teardown(idx, np);
  }

  /** With no continued lines, the logical lines are the trimmed raw lines. */
  lemma {:induction false} NoContinuation(raw: seq<string>)
    requires forall i :: 0 <= i < |raw| ==> !EndsWith(Trim(raw[i]), "\\")
    ensures LogicalLines(raw, "") == seq(|raw|, i requires 0 <= i < |raw| => Trim(raw[i]))
  {
    if raw != [] {
      NoContinuation(raw[1..]);
      assert "" + Trim(raw[0]) == Trim(raw[0]);
    }
  }

  /** The namespace and path fields split the full name back into its two parts. */
  lemma NameSplits(filePath: string, root: DatapackRoot, file: FileState, classify: Classifier)
    requires ':' !in root.namespace
    requires ':' !in FunctionPathOf(filePath, root)[|root.namespace| + 1..]
    ensures var info := ParseFunctionFile(filePath, root, file, classify);
            info.namespace == root.namespace && info.fullPath == info.namespace + ":" + info.path
  {
    var full := FunctionPathOf(filePath, root);
    var n := |root.namespace|;
    var rest := full[n + 1..];
    assert full == root.namespace + ":" + rest;
    assert OccursAt(full, ":", n);
    var k := IndexOf(full, ":");
    assert k != -1 && k <= n;
    forall j | 0 <= j < n ensures !OccursAt(full, ":", j) {
      assert full[j] == root.namespace[j] && root.namespace[j] in root.namespace;
      assert full[j..j + 1] == [full[j]];
    }
    assert k == n;
    assert full[k + 1..] == rest;
    var tail := SplitOn(rest, ":");
    assert IndexOf(rest, ":") == -1;
    assert tail == [rest];
    assert SplitOn(full, ":") == [root.namespace, rest];
  }

  // --------------------------------------------------------- score states

  /** A tracked score: None is the source's `null`, a value that is not known. */
  datatype ScoreState = ScoreState(target: string, objective: string, value: Option<int>)

  function Key(target: string, objective: string): string {
    target + ":" + objective
  }

  /** Every state of a key whose name starts with `target:` loses its value. */
  function ForgetTarget(m: map<string, ScoreState>, target: string): (r: map<string, ScoreState>)
    ensures r.Keys == m.Keys
    ensures forall k :: k in m ==>
              r[k] == (if StartsWith(k, target + ":") then m[k].(value := None) else m[k])
  {
    map k | k in m :: if StartsWith(k, target + ":") then m[k].(value := None) else m[k]
  }

  /** One change of a caller applied to the states it has established. */
  function ApplyChange(m: map<string, ScoreState>, c: ScoreChange): map<string, ScoreState> {
    var key := Key(c.target, c.objective);
    if c.isConditional then m[key := ScoreState(c.target, c.objective, None)]
    else match c.operation
      case OpSet(v) => m[key := ScoreState(c.target, c.objective, Some(v))]
      case OpAdd(v) =>
        if key in m && m[key].value.Some? then m[key := m[key].(value := Some(m[key].value.value + v))] else m
      case OpRemove(v) =>
        if key in m && m[key].value.Some? then m[key := m[key].(value := Some(m[key].value.value - v))] else m
      case OpReset =>
        if c.objective == "*" then ForgetTarget(m, c.target)
        else m[key := ScoreState(c.target, c.objective, None)]
      case OpUnknown => m - {key}
  }

  /** The changes before `callLine`, stopping at the first change at or after it. */
  function ApplyBefore(m: map<string, ScoreState>, changes: seq<ScoreChange>, callLine: nat): map<string, ScoreState>
    decreases |changes|
  {
    if changes == [] || changes[0].line >= callLine then m
    else ApplyBefore(ApplyChange(m, changes[0]), changes[1..], callLine)
  }

  function ApplyAll(m: map<string, ScoreState>, changes: seq<ScoreChange>): map<string, ScoreState>
    decreases |changes|
  {
    if changes == [] then m else ApplyAll(ApplyChange(m, changes[0]), changes[1..])
  }

  function LinesBefore(changes: seq<ScoreChange>, callLine: nat): (r: seq<ScoreChange>)
    ensures forall c :: c in r <==> c in changes && c.line < callLine
  {
    if changes == [] then []
    else (if changes[0].line < callLine then [changes[0]] else []) + LinesBefore(changes[1..], callLine)
  }

  predicate Ordered(changes: seq<ScoreChange>) {
    forall i, j :: 0 <= i < j < |changes| ==> changes[i].line <= changes[j].line
  }

  /**
   * On changes in line order, stopping at the call line applies exactly the
   * changes on earlier lines.
   */
  lemma {:induction false} BreakAppliesEarlierLines(m: map<string, ScoreState>, changes: seq<ScoreChange>, callLine: nat)
    requires Ordered(changes)
    ensures ApplyBefore(m, changes, callLine) == ApplyAll(m, LinesBefore(changes, callLine))
    decreases |changes|
  {
    if changes == [] {
    } else if changes[0].line >= callLine {
      NothingBefore(changes, callLine);
    } else {
      assert Ordered(changes[1..]) by {
        forall i, j | 0 <= i < j < |changes[1..]| ensures changes[1..][i].line <= changes[1..][j].line {
          assert changes[1..][i] == changes[i + 1] && changes[1..][j] == changes[j + 1];
        }
      }
      BreakAppliesEarlierLines(ApplyChange(m, changes[0]), changes[1..], callLine);
      assert LinesBefore(changes, callLine) == [changes[0]] + LinesBefore(changes[1..], callLine);
      assert ([changes[0]] + LinesBefore(changes[1..], callLine))[1..] == LinesBefore(changes[1..], callLine);
    }
  }

  lemma {:induction false} NothingBefore(changes: seq<ScoreChange>, callLine: nat)
    requires forall i :: 0 <= i < |changes| ==> changes[i].line >= callLine
    ensures LinesBefore(changes, callLine) == []
  {
    if changes != [] {
      NothingBefore(changes[1..], callLine);
    }
  }

  /** The parser's changes are in line order, so the lemma above applies to every indexed unit. */
  lemma ParsedChangesOrdered(filePath: string, root: DatapackRoot, file: FileState, classify: Classifier)
    ensures Ordered(ParseFunctionFile(filePath, root, file, classify).scoreChanges)
  {
  }

  /** An unconditional add followed by a remove of the same amount restores the states. */
  lemma AddThenRemove(m: map<string, ScoreState>, target: string, objective: string, v: int, line: nat)
    requires Key(target, objective) in m && m[Key(target, objective)].value.Some?
    ensures ApplyChange(ApplyChange(m, ScoreChange(target, objective, OpAdd(v), line, false)),
                        ScoreChange(target, objective, OpRemove(v), line, false)) == m
  {
    var key := Key(target, objective);
    var m1 := ApplyChange(m, ScoreChange(target, objective, OpAdd(v), line, false));
    var m2 := ApplyChange(m1, ScoreChange(target, objective, OpRemove(v), line, false));
    assert m2[key] == m[key];
  }

  /** A change other than a reset of all objectives touches only its own key. */
  lemma ChangeIsLocal(m: map<string, ScoreState>, c: ScoreChange, k: string)
    requires !(c.operation.OpReset? && c.objective == "*" && !c.isConditional)
    requires k != Key(c.target, c.objective)
    ensures k in ApplyChange(m, c) <==> k in m
    ensures k in m ==> ApplyChange(m, c)[k] == m[k]
  {
  }

  /** After an unconditional change the key's state is what the operation determines. */
  lemma ChangeOutcome(m: map<string, ScoreState>, c: ScoreChange)
    requires !c.isConditional
    ensures var key := Key(c.target, c.objective);
            var r := ApplyChange(m, c);
            && (c.operation.OpSet? ==> key in r && r[key].value == Some(c.operation.value))
            && (c.operation.OpReset? && c.objective != "*" ==> key in r && r[key].value.None?)
            && (c.operation.OpUnknown? ==> key !in r)
            && (c.operation.OpAdd? && key in m && m[key].value.Some? ==>
                  r[key].value == Some(m[key].value.value + c.operation.amount))
            && ((c.operation.OpAdd? || c.operation.OpRemove?) && !(key in m && m[key].value.Some?) ==> r == m)
  {
  }

  /** A key survives when every reported state carries the first one's value. */
  predicate Agree(states: seq<ScoreState>) {
    |states| > 0 && forall i :: 0 <= i < |states| ==> states[i].value == states[0].value
  }

  function Consensus(all: map<string, seq<ScoreState>>): (r: map<string, ScoreState>)
    ensures forall k :: k in r ==> k in all && |all[k]| > 0 && r[k] == all[k][0]
  {
    map k | k in all && Agree(all[k]) :: all[k][0]
  }

  /** A key is kept exactly when all its reported values agree pairwise. */
  lemma ConsensusIff(all: map<string, seq<ScoreState>>, k: string)
    ensures k in Consensus(all) <==>
              k in all && |all[k]| > 0 &&
              forall i, j :: 0 <= i < |all[k]| && 0 <= j < |all[k]| ==> all[k][i].value == all[k][j].value
  {
    if k in all && |all[k]| > 0 && forall i, j :: 0 <= i < |all[k]| && 0 <= j < |all[k]| ==> all[k][i].value == all[k][j].value {
      assert forall i :: 0 <= i < |all[k]| ==> all[k][i].value == all[k][0].value;
    }
  }

  /** Two callers reporting different values drop the key. */
  lemma ConsensusDropsDisagreement(all: map<string, seq<ScoreState>>, k: string, i: nat, j: nat)
    requires k in all && i < |all[k]| && j < |all[k]| && all[k][i].value != all[k][j].value
    ensures k !in Consensus(all)
  {
    ConsensusIff(all, k);
  }

  function AppendAll(acc: map<string, seq<ScoreState>>, sm: map<string, ScoreState>): (r: map<string, seq<ScoreState>>)
    ensures r.Keys == acc.Keys + sm.Keys
    ensures forall k :: k in r ==>
              r[k] == (if k in acc then acc[k] else []) + (if k in sm then [sm[k]] else [])
  {
    map k | k in acc.Keys + sm.Keys :: (if k in acc then acc[k] else []) + (if k in sm then [sm[k]] else [])
  }

  function Len(m: map<string, seq<ScoreState>>, k: string): nat {
    if k in m then |m[k]| else 0
  }

  lemma RemovingOneShrinks(u: set<string>, v: set<string>, p: string)
    requires p in u && p !in v
    ensures |u - (v + {p})| < |u - v|
  {
    assert u - v == (u - (v + {p})) + {p};
  }

  /**
   * `collectScoreStatesFromCallers`: for every unconditional, indexed caller
   * of `p`, the consensus of that caller's own callers, advanced through the
   * caller's changes before the call line, one state per key and caller.
   */
  function Collect(idx: Index, p: string, visited: set<string>): (r: map<string, seq<ScoreState>>)
    ensures p in visited || GetCallers(idx, p) == [] ==> r == map[]
    ensures forall k :: k in r ==> 1 <= |r[k]| <= |GetCallers(idx, p)|
    decreases |idx.units.Keys - visited|, if p in idx.units then 0 else 1, 1, 0
  {
    if p in visited then map[]
    else
      var cs := GetCallers(idx, p);
      if |cs| == 0 then map[]
      else if p in idx.units then
        RemovingOneShrinks(idx.units.Keys, visited, p);
        CollectCallers(idx, cs, visited + {p}, map[])
      else
        assert idx.units.Keys - (visited + {p}) == idx.units.Keys - visited;
        CollectCallers(idx, cs, visited + {p}, map[])
  }

  function CollectCallers(idx: Index, cs: seq<CallerInfo>, visited: set<string>, acc: map<string, seq<ScoreState>>)
    : (r: map<string, seq<ScoreState>>)
    ensures acc.Keys <= r.Keys
    ensures forall k :: k in r ==> Len(acc, k) <= |r[k]| <= Len(acc, k) + |cs|
    ensures forall k :: k in r && k !in acc ==> 1 <= |r[k]|
    decreases |idx.units.Keys - visited|, 1, 0, |cs|
  {
    if cs == [] then acc
    else
      var c := cs[0];
      if c.isConditional || c.callerPath !in idx.units then CollectCallers(idx, cs[1..], visited, acc)
      else
        var parent := Collect(idx, c.callerPath, visited);
        var sm := ApplyBefore(Consensus(parent), idx.units[c.callerPath].scoreChanges, c.line);
        CollectCallers(idx, cs[1..], visited, AppendAll(acc, sm))
  }

  /** `getConsensusScoreStates`: the states every contributing caller agrees on. */
  function ConsensusScoreStates(idx: Index, p: string): (r: map<string, ScoreState>)
    ensures GetCallers(idx, p) == [] ==> r == map[]
  {
    Consensus(Collect(idx, p, {}))
  }

  predicate Contributes(idx: Index, c: CallerInfo) {
    !c.isConditional && c.callerPath in idx.units
  }

  function Contributing(idx: Index, cs: seq<CallerInfo>): (r: seq<CallerInfo>)
    ensures forall c :: c in r <==> c in cs && Contributes(idx, c)
  {
    if cs == [] then []
    else (if Contributes(idx, cs[0]) then [cs[0]] else []) + Contributing(idx, cs[1..])
  }

  /** Conditional call sites and callers missing from the index contribute nothing. */
  lemma {:induction false} OnlyContributorsCount(idx: Index, cs: seq<CallerInfo>, visited: set<string>, acc: map<string, seq<ScoreState>>)
    ensures CollectCallers(idx, cs, visited, acc) == CollectCallers(idx, Contributing(idx, cs), visited, acc)
    decreases |cs|
  {
    if cs != [] {
      var c := cs[0];
      if Contributes(idx, c) {
        var parent := Collect(idx, c.callerPath, visited);
        var sm := ApplyBefore(Consensus(parent), idx.units[c.callerPath].scoreChanges, c.line);
        OnlyContributorsCount(idx, cs[1..], visited, AppendAll(acc, sm));
        assert Contributing(idx, cs) == [c] + Contributing(idx, cs[1..]);
        assert ([c] + Contributing(idx, cs[1..]))[1..] == Contributing(idx, cs[1..]);
      } else {
        OnlyContributorsCount(idx, cs[1..], visited, acc);
        assert Contributing(idx, cs) == Contributing(idx, cs[1..]);
      }
    }
  }

  /**
   * A function whose only caller is one unconditional call site, in a
   * function nobody calls, sees exactly the states that caller sets up
   * before the call line.
   */
  lemma SingleCallerConsensus(idx: Index, p: string, q: string, line: nat)
    requires GetCallers(idx, p) == [CallerInfo(q, line, false)]
    requires q in idx.units && q != p && GetCallers(idx, q) == []
    ensures ConsensusScoreStates(idx, p) == ApplyBefore(map[], idx.units[q].scoreChanges, line)
  {
    var sm := ApplyBefore(map[], idx.units[q].scoreChanges, line);
    assert Collect(idx, q, {p}) == map[];
    assert Consensus(map[]) == map[];
    var all := Collect(idx, p, {});
    var cs := [CallerInfo(q, line, false)];
    assert {} + {p} == {p};
    assert all == CollectCallers(idx, cs, {p}, map[]);
    assert cs[0].callerPath == q && Contributes(idx, cs[0]);
    assert CollectCallers(idx, cs, {p}, map[]) == CollectCallers(idx, [], {p}, AppendAll(map[], sm));
    assert all == AppendAll(map[], sm);
    forall k | k in sm ensures Agree(all[k]) {
      assert all[k] == [sm[k]];
    }
  }
}
