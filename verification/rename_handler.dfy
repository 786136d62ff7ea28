/**
 * Renaming a `.mcfunction` file: its path is read as a function
 * reference `<namespace>:<path>`, and every `function <ref>` or
 * `schedule function <ref>` in the workspace's function files is
 * rewritten to the new reference. The files' texts are parameters; the
 * workspace search and the editor's edit object are not modelled.
 */
module RenameHandler {
  import opened Wrappers
  import opened Text
  import opened Seqs
  import opened Scans

  // ------------------------------------------------------------ extractFunctionReference

  const Suffix: string := ".mcfunction"

  /** The parts of `data/<ns>/<folder>/<path>.mcfunction`. */
  datatype FunctionPath = FunctionPath(ns: string, folder: string, path: string)

  function Layout(f: FunctionPath): string {
    "data/" + (f.ns + ("/" + ((f.folder + "/") + (f.path + Suffix))))
  }

  /** What `data\/([^/]+)\/functions?\/(.+)\.mcfunction$` accepts: a namespace without `/`, either folder name, a path on one line. */
  predicate ValidPath(f: FunctionPath) {
    && (f.folder == "function" || f.folder == "functions")
    && f.ns != [] && '/' !in f.ns
    && f.path != [] && OneLine(f.path)
  }

  /** No line terminator in the text: what `.` in `(.+)` admits. */
  predicate OneLine(s: string) {
    s == [] || (!IsLineTerminator(s[0]) && OneLine(s[1..]))
  }

  /** The end of the run of non-`/` characters from `i`. */
  function SlashFree(s: string, i: nat): (j: nat)
    requires i <= |s|
    ensures i <= j <= |s| && (j < |s| ==> s[j] == '/')
    ensures forall k :: i <= k < j ==> s[k] != '/'
    decreases |s| - i
  {
    if i == |s| || s[i] == '/' then i else SlashFree(s, i + 1)
  }

  /** The folder at the start of `b` followed by `/`: `functions` is tried before `function`. */
  function FolderAt(b: string): (r: Option<string>)
    ensures r.Some? ==> (r.value == "function" || r.value == "functions") && StartsWith(b, r.value + "/")
  {
    var folder := if StartsWith(b, "functions/") then "functions" else "function";
    if StartsWith(b, folder + "/") then Some(folder) else None
  }

  /** The path of `c`: all before the final `.mcfunction`, not empty and on one line. */
  function PathOf(c: string): (r: Option<string>)
    ensures r.Some? ==> r.value != [] && OneLine(r.value) && c == r.value + Suffix
  {
    if |c| <= |Suffix| || !EndsWith(c, Suffix) || !OneLine(c[..|c| - |Suffix|]) then None
    else
      assert c == c[..|c| - |Suffix|] + c[|c| - |Suffix|..];
      Some(c[..|c| - |Suffix|])
  }

  /**
   * The regex anchored at the start of `t`: the namespace is the whole
   * run of non-`/` characters after `data/`; `functions/` is tried before
   * `function/`; the path is all that is left before the final
   * `.mcfunction`.
   */
  function MatchHere(t: string): Option<FunctionPath> {
    if !StartsWith(t, "data/") then None
    else
      var a := t[5..];
      var e := SlashFree(a, 0);
      if e == 0 || e == |a| then None
      else
        var b := a[e + 1..];
        match FolderAt(b)
        case None => None
        case Some(folder) =>
          match PathOf(b[|folder| + 1..])
          case None => None
          case Some(path) => Some(FunctionPath(a[..e], folder, path))
  }

  /** What is matched is a valid path. */
  lemma MatchValid(t: string)
    requires MatchHere(t).Some?
    ensures ValidPath(MatchHere(t).value)
  {
    var a := t[5..];
    var e := SlashFree(a, 0);
    assert '/' !in a[..e] by {
      assert forall k :: 0 <= k < e ==> a[..e][k] == a[k];
    }
  }

  /** The pieces a match reads: `data/`, the namespace and its `/`, the folder and its `/`, the path and the suffix. */
  predicate PiecesOf(t: string, fp: FunctionPath) {
    && StartsWith(t, "data/") && |fp.ns| < |t[5..]|
    && t[5..][..|fp.ns|] == fp.ns && t[5..][|fp.ns|] == '/'
    && StartsWith(t[5..][|fp.ns| + 1..], fp.folder + "/")
    && t[5..][|fp.ns| + 1..][|fp.folder| + 1..] == fp.path + Suffix
  }

  lemma MatchPieces(t: string)
    requires MatchHere(t).Some?
    ensures PiecesOf(t, MatchHere(t).value)
  {
  }

  lemma PiecesLayout(t: string, fp: FunctionPath)
    requires PiecesOf(t, fp)
    ensures t == Layout(fp)
  {
    var a := t[5..];
    var e := |fp.ns|;
    var b := a[e + 1..];
    var c := b[|fp.folder| + 1..];
    assert b == (fp.folder + "/") + c by {
      assert b[..|fp.folder| + 1] == fp.folder + "/";
      assert b == b[..|fp.folder| + 1] + c;
    }
    assert a == fp.ns + ("/" + b) by {
      assert a[..e] == fp.ns && [a[e]] == "/";
      assert a == a[..e] + [a[e]] + b;
    }
    assert t == "data/" + a by {
      assert t[..5] == "data/";
      assert t == t[..5] + a;
    }
  }

  /** A match is the layout of its parts. */
  lemma MatchIsLayout(t: string)
    requires MatchHere(t).Some?
    ensures t == Layout(MatchHere(t).value)
  {
    MatchPieces(t);
    PiecesLayout(t, MatchHere(t).value);
  }

  /** A one-line, non-empty path with the suffix put on is read back. */
  lemma PathOfSuffix(path: string)
    requires path != [] && OneLine(path)
    ensures PathOf(path + Suffix) == Some(path)
  {
    var c := path + Suffix;
    assert c[..|c| - |Suffix|] == path;
    assert c[|c| - |Suffix|..] == Suffix;
  }

  /** Either folder name followed by `/` is read back, and what follows it is kept. */
  lemma FolderAtLayout(folder: string, c: string)
    requires folder == "function" || folder == "functions"
    ensures FolderAt((folder + "/") + c) == Some(folder)
    ensures ((folder + "/") + c)[|folder| + 1..] == c
  {
    var b := (folder + "/") + c;
    if folder == "function" {
      assert b[8] == '/';
    }
    assert b[..|folder| + 1] == folder + "/";
  }

  /** The namespace run ends at the `/` after a namespace without one. */
  lemma NamespaceRun(ns: string, b: string)
    requires ns != [] && '/' !in ns
    ensures var a := ns + ("/" + b);
            SlashFree(a, 0) == |ns| < |a| && a[..|ns|] == ns && a[|ns| + 1..] == b
  {
    var a := ns + ("/" + b);
    forall k | 0 <= k < |ns|
      ensures a[k] != '/'
    {
      assert a[k] == ns[k];
    }
    SlashFreeIs(a, 0, |ns|);
    assert a[..|ns|] == ns;
    assert a[|ns| + 1..] == b;
  }

  /** The regex reads `data/`, the namespace run, the folder and the path. */
  lemma MatchHereParts(t: string, a: string, b: string, c: string, fp: FunctionPath)
    requires StartsWith(t, "data/") && t[5..] == a
    requires SlashFree(a, 0) == |fp.ns| && 0 < |fp.ns| < |a| && a[..|fp.ns|] == fp.ns && a[|fp.ns| + 1..] == b
    requires FolderAt(b) == Some(fp.folder) && b[|fp.folder| + 1..] == c
    requires PathOf(c) == Some(fp.path)
    ensures MatchHere(t) == Some(fp)
  {
  }

  /** The layout of a valid path is matched. */
  lemma LayoutMatches(fp: FunctionPath)
    requires ValidPath(fp)
    ensures MatchHere(Layout(fp)) == Some(fp)
  {
    var c := fp.path + Suffix;
    var b := (fp.folder + "/") + c;
    var a := fp.ns + ("/" + b);
    var t := Layout(fp);
    assert StartsWith(t, "data/") && t[5..] == a by {
      assert t == "data/" + a;
    }
    assert SlashFree(a, 0) == |fp.ns| < |a| && a[..|fp.ns|] == fp.ns && a[|fp.ns| + 1..] == b by {
      NamespaceRun(fp.ns, b);
    }
    assert FolderAt(b) == Some(fp.folder) && b[|fp.folder| + 1..] == c by {
      FolderAtLayout(fp.folder, c);
    }
    PathOfSuffix(fp.path);
    MatchHereParts(t, a, b, c, fp);
  }

  /** A match is exactly the layout of a valid path. */
  lemma MatchHereIff(t: string, fp: FunctionPath)
    ensures MatchHere(t) == Some(fp) <==> ValidPath(fp) && t == Layout(fp)
  {
    if MatchHere(t) == Some(fp) {
      MatchIsLayout(t);
      MatchValid(t);
    }
    if ValidPath(fp) && t == Layout(fp) {
      LayoutMatches(fp);
    }
  }

  lemma {:induction false} SlashFreeIs(s: string, i: nat, j: nat)
    requires i <= j < |s| && s[j] == '/' && forall k :: i <= k < j ==> s[k] != '/'
    ensures SlashFree(s, i) == j
    decreases j - i
  {
    if i < j {
      SlashFreeIs(s, i + 1, j);
    }
  }

  /** A match and where it starts. */
  datatype Located = Located(at: nat, fp: FunctionPath)

  /** The match anchored at each start `0..|n|`. */
  function Anchored(n: string): (r: seq<Option<FunctionPath>>)
    ensures |r| == |n| + 1 && forall m :: 0 <= m <= |n| ==> r[m] == MatchHere(n[m..])
  {
    seq(|n| + 1, m requires 0 <= m <= |n| => MatchHere(n[m..]))
  }

  /** `String.match` of the unanchored regex: the leftmost start that matches. */
  function FirstMatch(n: string): (r: Option<Located>)
    ensures r.Some? ==> r.value.at <= |n| && MatchHere(n[r.value.at..]) == Some(r.value.fp)
    ensures r.Some? ==> forall m :: 0 <= m < r.value.at ==> MatchHere(n[m..]).None?
    ensures r.None? ==> forall m :: 0 <= m <= |n| ==> MatchHere(n[m..]).None?
  {
    var ms := Anchored(n);
    match FirstSome(ms, 0)
    case None => None
    case Some(at) => Some(Located(at, ms[at].value))
  }

  /** The path with every `\` turned into `/`. */
  function Normalize(filePath: string): (r: string)
    ensures |r| == |filePath| && '\\' !in r
  {
    ReplaceChar(filePath, '\\', '/')
  }

  /**
   * `extractFunctionReference`: `<ns>:<path>` of the leftmost match in
   * the normalised path, which holds no backslash; none without a match.
   */
  function ExtractFunctionReference(filePath: string): (r: Option<string>)
    ensures r.None? <==> FirstMatch(Normalize(filePath)).None?
    ensures r.Some? ==>
              var fp := FirstMatch(Normalize(filePath)).value.fp;
              ValidPath(fp) && r.value == fp.ns + ":" + fp.path && '\\' !in r.value
  {
    var n := Normalize(filePath);
    match FirstMatch(n)
    case None => None
    case Some(loc) =>
      MatchValid(n[loc.at..]);
      NoBackslashIn(n, loc.at, loc.fp);
      Some(loc.fp.ns + ":" + loc.fp.path)
  }

  lemma NoBackslashIn(n: string, p: nat, fp: FunctionPath)
    requires '\\' !in n && p <= |n| && MatchHere(n[p..]) == Some(fp)
    ensures '\\' !in fp.ns + ":" + fp.path
  {
    var t := n[p..];
    MatchIsLayout(t);
    assert '\\' !in t by {
      forall k | 0 <= k < |t|
        ensures t[k] != '\\'
      {
        assert t[k] == n[p + k];
      }
    }
    assert t == "data/" + (fp.ns + ("/" + ((fp.folder + "/") + (fp.path + Suffix))));
    assert '\\' !in fp.ns;
    assert '\\' !in fp.path + Suffix;
    assert '\\' !in fp.path;
  }

  /** Text without `\` is left as it is. */
  lemma NormalizeClean(s: string)
    requires '\\' !in s
    ensures Normalize(s) == s
  {
  }

  /** A path laid out as `data/<ns>/function(s)/<path>.mcfunction` reads back as `<ns>:<path>`. */
  lemma ExtractLayout(fp: FunctionPath)
    requires ValidPath(fp) && '\\' !in fp.ns && '\\' !in fp.path
    ensures ExtractFunctionReference(Layout(fp)) == Some(fp.ns + ":" + fp.path)
  {
    var n := Layout(fp);
    LayoutClean(fp);
    NormalizeClean(n);
    LayoutMatches(fp);
    assert n[0..] == n;
  }

  lemma LayoutClean(fp: FunctionPath)
    requires ValidPath(fp) && '\\' !in fp.ns && '\\' !in fp.path
    ensures '\\' !in Layout(fp)
  {
    assert forall c :: c in Layout(fp) ==> c in fp.ns || c in fp.folder || c in fp.path || c in "data/" || c in "/" || c in Suffix;
  }

  // ------------------------------------------------------------ escapeRegex

  /** The characters `escapeRegex` prefixes with a backslash. */
  const Meta: set<char> := {'.', '*', '+', '?', '^', '$', '{', '}', '(', ')', '|', '[', ']', '\\'}

  /** `escapeRegex`: every metacharacter gets a backslash in front, other characters are kept. */
  function EscapeRegex(s: string): (r: string)
    ensures |r| >= |s|
    ensures (forall c :: c in s ==> c !in Meta) ==> r == s
  {
    if s == [] then []
    else (if s[0] in Meta then ['\\', s[0]] else [s[0]]) + EscapeRegex(s[1..])
  }

  /** How a regex reads literal text: a backslash takes the next character as itself. */
  function Unescape(r: string): string
    decreases |r|
  {
    if r == [] then []
    else if r[0] == '\\' && |r| > 1 then [r[1]] + Unescape(r[2..])
    else [r[0]] + Unescape(r[1..])
  }

  /** An escaped text, read by a regex, stands for the text itself. */
  lemma {:induction false} UnescapeEscape(s: string)
    ensures Unescape(EscapeRegex(s)) == s
  {
    if s != [] {
      UnescapeEscape(s[1..]);
      var rest := EscapeRegex(s[1..]);
      if s[0] in Meta {
        var r := ['\\', s[0]] + rest;
        assert r[2..] == rest;
      } else {
        var r := [s[0]] + rest;
        assert r[1..] == rest;
      }
      assert s == [s[0]] + s[1..];
    }
  }

  // ------------------------------------------------------------ reference ranges

  /**
   * The backtracking of `\s+<ref>\b` after `lo`: the greedy `\s+` gives
   * back characters one by one, so the reference is taken at the largest
   * position in `(lo, e]` where it occurs followed by a word boundary.
   */
  function RefAfterSpaces(line: string, ref: string, lo: nat, e: nat): (r: Option<nat>)
    requires lo <= e <= |line|
    ensures r.Some? ==> lo < r.value <= e && OccursAt(line, ref, r.value) && WordBoundary(line, r.value + |ref|)
    decreases e
  {
    if e <= lo then None
    else if OccursAt(line, ref, e) && WordBoundary(line, e + |ref|) then Some(e)
    else RefAfterSpaces(line, ref, lo, e - 1)
  }

  /** The position taken is the largest that fits, and none fits when nothing is taken. */
  lemma {:induction false} RefAfterSpacesLargest(line: string, ref: string, lo: nat, e: nat, k: nat)
    requires lo <= e <= |line| && lo < k <= e && OccursAt(line, ref, k) && WordBoundary(line, k + |ref|)
    ensures RefAfterSpaces(line, ref, lo, e).Some? && k <= RefAfterSpaces(line, ref, lo, e).value
    decreases e
  {
    if k < e && !(OccursAt(line, ref, e) && WordBoundary(line, e + |ref|)) {
      RefAfterSpacesLargest(line, ref, lo, e - 1, k);
    }
  }

  /** The reference is preceded by `function` and at least one whitespace character. */
  predicate AfterFunction(line: string, k: nat) {
    exists f :: 0 <= f && f + 8 < k <= |line| && OccursAt(line, "function", f) && forall c :: f + 8 <= c < k ==> IsSpace(line[c])
  }

  /** A reference at `k` that the patterns accept: followed by a word boundary and preceded by `function` and whitespace. */
  predicate RefFound(line: string, ref: string, k: nat) {
    OccursAt(line, ref, k) && WordBoundary(line, k + |ref|) && AfterFunction(line, k)
  }

  /**
   * Where the reference of a match starting at `m` begins, for
   * `(\$?function\s+)<ref>\b` (`schedule` false) or
   * `(\$?schedule\s+function\s+)<ref>\b` (`schedule` true): the end of
   * the captured prefix.
   */
  function RefStart(line: string, ref: string, m: nat, schedule: bool): (r: Option<nat>)
    requires m <= |line|
    ensures r.Some? ==> m < r.value && r.value + |ref| <= |line|
  {
    match FunctionAt(line, m, schedule)
    case None => None
    case Some(f) => RefAfterSpaces(line, ref, f + 8, SpaceEnd(line, f + 8))
  }

  /**
   * Where the word `function` of a match starting at `m` lies: after an
   * optional `$`, and for `schedule` after `schedule` and whitespace.
   */
  function FunctionAt(line: string, m: nat, schedule: bool): (r: Option<nat>)
    requires m <= |line|
    ensures r.Some? ==> m <= r.value && OccursAt(line, "function", r.value)
  {
    var k0 := if m < |line| && line[m] == '$' then m + 1 else m;
    var k1 :=
      if !schedule then Some(k0)
      else if OccursAt(line, "schedule", k0) && SpaceEnd(line, k0 + 8) > k0 + 8 then Some(SpaceEnd(line, k0 + 8))
      else None;
    if k1.None? || !OccursAt(line, "function", k1.value) then None else k1
  }

  /** A match's reference is one the patterns accept. */
  lemma RefStartFound(line: string, ref: string, m: nat, schedule: bool)
    requires m <= |line| && RefStart(line, ref, m, schedule).Some?
    ensures RefFound(line, ref, RefStart(line, ref, m, schedule).value)
  {
    var f := FunctionAt(line, m, schedule).value;
    var k := RefStart(line, ref, m, schedule).value;
    assert forall c :: f + 8 <= c < k ==> IsSpace(line[c]);
  }

  /** The reference start of a match at each position `0..|line|`. */
  function Starts(line: string, ref: string, schedule: bool): (r: seq<Option<nat>>)
    ensures |r| == |line| + 1 && Forward(r)
    ensures forall m :: 0 <= m <= |line| ==> r[m] == RefStart(line, ref, m, schedule)
  {
    seq(|line| + 1, m requires 0 <= m <= |line| => RefStart(line, ref, m, schedule))
  }

  /** Every start found lies after the position tried and inside the line. */
  predicate Forward(ss: seq<Option<nat>>) {
    forall m :: 0 <= m < |ss| && ss[m].Some? ==> m < ss[m].value < |ss|
  }

  /**
   * The `while (pattern.exec(line))` loop over the starts `ss` from `p`:
   * on a match, the next search resumes after the `w` characters of the
   * reference; otherwise one position later.
   */
  function Scan(ss: seq<Option<nat>>, w: nat, p: nat): (r: seq<nat>)
    requires Forward(ss)
    ensures forall k :: k in r ==> p < k < |ss|
    ensures forall j :: 0 <= j < |r| - 1 ==> r[j] + w <= r[j + 1]
    decreases |ss| - p
  {
    if p + 1 >= |ss| then []
    else
      match ss[p]
      case Some(k) =>
        var rest := Scan(ss, w, k + w);
        assert rest != [] ==> rest[0] in rest;
        [k] + rest
      case None => Scan(ss, w, p + 1)
  }

  /** No position from `a` up to the last one the loop tries finds a start. */
  predicate NoStart(ss: seq<Option<nat>>, a: nat) {
    forall q :: a <= q < |ss| - 1 ==> ss[q].None?
  }

  /** The first position from `a` that finds a start finds `k`. */
  predicate FirstStart(ss: seq<Option<nat>>, a: nat, k: nat) {
    exists m :: a <= m < |ss| - 1 && ss[m] == Some(k) && forall q :: a <= q < m ==> ss[q].None?
  }

  /**
   * The loop misses no match: the first start it reports is the first
   * found from `p`, each next one the first found after the previous
   * reference, and none is found after the last.
   */
  predicate Exhaustive(ss: seq<Option<nat>>, w: nat, p: nat, r: seq<nat>) {
    && (r == [] ==> NoStart(ss, p))
    && (r != [] ==> FirstStart(ss, p, r[0]) && NoStart(ss, r[|r| - 1] + w))
    && (forall j :: 0 <= j < |r| - 1 ==> FirstStart(ss, r[j] + w, r[j + 1]))
  }

  lemma {:induction false} ScanExhaustive(ss: seq<Option<nat>>, w: nat, p: nat)
    requires Forward(ss)
    ensures Exhaustive(ss, w, p, Scan(ss, w, p))
    decreases |ss| - p
  {
    if p + 1 < |ss| {
      match ss[p]
      case Some(k) =>
        ScanExhaustive(ss, w, k + w);
        ExhaustiveMatch(ss, w, p, k, Scan(ss, w, k + w));
        assert Scan(ss, w, p) == [k] + Scan(ss, w, k + w);
      case None =>
        ScanExhaustive(ss, w, p + 1);
        ExhaustiveSkip(ss, w, p, Scan(ss, w, p + 1));
        assert Scan(ss, w, p) == Scan(ss, w, p + 1);
    }
  }

  /** A match at `p` followed by the loop from the end of its reference. */
  lemma ExhaustiveMatch(ss: seq<Option<nat>>, w: nat, p: nat, k: nat, rest: seq<nat>)
    requires p + 1 < |ss| && ss[p] == Some(k) && Exhaustive(ss, w, k + w, rest)
    ensures Exhaustive(ss, w, p, [k] + rest)
  {
    var r := [k] + rest;
    assert FirstStart(ss, p, k);
    forall j | 0 <= j < |r| - 1
      ensures FirstStart(ss, r[j] + w, r[j + 1])
    {
      if j > 0 {
        assert r[j] == rest[j - 1] && r[j + 1] == rest[j];
      }
    }
  }

  /** No match at `p`, then the loop from one position later. */
  lemma ExhaustiveSkip(ss: seq<Option<nat>>, w: nat, p: nat, r: seq<nat>)
    requires p + 1 < |ss| && ss[p].None? && Exhaustive(ss, w, p + 1, r)
    ensures Exhaustive(ss, w, p, r)
  {
    if r != [] {
      var m :| p + 1 <= m < |ss| - 1 && ss[m] == Some(r[0]) && forall q :: p + 1 <= q < m ==> ss[q].None?;
      assert FirstStart(ss, p, r[0]);
    }
  }

  /** Each start the loop reports is the start found at some position it tried. */
  lemma {:induction false} ScanFrom(ss: seq<Option<nat>>, w: nat, p: nat, k: nat)
    requires Forward(ss) && k in Scan(ss, w, p)
    ensures exists m :: p <= m < |ss| && ss[m] == Some(k)
    decreases |ss| - p
  {
    match ss[p]
    case Some(k') =>
      if k != k' {
        ScanFrom(ss, w, k' + w, k);
      }
    case None =>
      ScanFrom(ss, w, p + 1, k);
  }

  /** The loop passes over positions where nothing is found. */
  lemma {:induction false} ScanNone(ss: seq<Option<nat>>, w: nat, p: nat, q: nat)
    requires Forward(ss) && p <= q < |ss| && forall m :: p <= m < q ==> ss[m].None?
    ensures Scan(ss, w, p) == Scan(ss, w, q)
    decreases q - p
  {
    if p < q {
      ScanNone(ss, w, p + 1, q);
    }
  }

  /**
   * The loop for one pattern from `p`: the reference starts of its
   * matches, left to right, missing none that a search resuming at the
   * end of the previous reference would find.
   */
  function ScanRefs(line: string, ref: string, p: nat, schedule: bool): (r: seq<nat>)
    ensures forall k :: k in r ==> p < k <= |line|
    ensures forall j :: 0 <= j < |r| - 1 ==> r[j] + |ref| <= r[j + 1]
    ensures Exhaustive(Starts(line, ref, schedule), |ref|, p, r)
  {
    ScanExhaustive(Starts(line, ref, schedule), |ref|, p);
    Scan(Starts(line, ref, schedule), |ref|, p)
  }

  /** Every start the loop reports is a reference the patterns accept. */
  lemma ScanRefsFound(line: string, ref: string, p: nat, schedule: bool, k: nat)
    requires k in ScanRefs(line, ref, p, schedule)
    ensures RefFound(line, ref, k)
  {
    var ss := Starts(line, ref, schedule);
    ScanFrom(ss, |ref|, p, k);
    var m :| p <= m < |ss| && ss[m] == Some(k);
    RefStartFound(line, ref, m, schedule);
  }

  /** One replacement: `[start, end)` of line `line` of file `file` becomes `newText`. */
  datatype Update = Update(file: nat, line: nat, start: nat, end: nat, newText: string)

  /** A replacement of the old reference at each start. */
  function UpdatesAt(file: nat, lineIndex: nat, starts: seq<nat>, oldRef: string, newRef: string): (r: seq<Update>)
    ensures |r| == |starts|
    ensures forall j :: 0 <= j < |r| ==> r[j] == Update(file, lineIndex, starts[j], starts[j] + |oldRef|, newRef)
  {
    seq(|starts|, j requires 0 <= j < |starts| => Update(file, lineIndex, starts[j], starts[j] + |oldRef|, newRef))
  }

  /** The starts both patterns find in a line, the `function` pattern's first. */
  function BothPatterns(line: string, oldRef: string): seq<nat> {
    ScanRefs(line, oldRef, 0, false) + ScanRefs(line, oldRef, 0, true)
  }

  /** A start either pattern finds: a reference after `function` and whitespace. */
  lemma BothPatternsFound(line: string, oldRef: string)
    ensures forall k :: k in BothPatterns(line, oldRef) ==> RefFound(line, oldRef, k)
  {
    var a := ScanRefs(line, oldRef, 0, false);
    var b := ScanRefs(line, oldRef, 0, true);
    forall k | k in a + b
      ensures RefFound(line, oldRef, k)
    {
      if k in a {
        ScanRefsFound(line, oldRef, 0, false, k);
      } else {
        ScanRefsFound(line, oldRef, 0, true, k);
      }
    }
  }

  /**
   * The updates of one line as the loop over the two patterns pushes
   * them: a `schedule function <ref>` is found by both, so it is listed
   * twice.
   */
  function LineUpdatesAsWritten(file: nat, lineIndex: nat, line: string, oldRef: string, newRef: string): (r: seq<Update>)
    ensures |r| == |BothPatterns(line, oldRef)|
    ensures forall j :: 0 <= j < |r| ==> r[j].end == r[j].start + |oldRef| && r[j].newText == newRef && OccursAt(line, oldRef, r[j].start)
  {
    var starts := BothPatterns(line, oldRef);
    BothPatternsFound(line, oldRef);
    assert forall j :: 0 <= j < |starts| ==> starts[j] in starts;
    UpdatesAt(file, lineIndex, starts, oldRef, newRef)
  }

  /** A line with a scheduled call of `a:b`. */
  const ScheduleLine: string := "schedule function a:b"

  lemma ScheduleFunctionWord()
    ensures FunctionAt(ScheduleLine, 9, false) == Some(9)
    ensures FunctionAt(ScheduleLine, 0, true) == Some(9)
  {
    assert ScheduleLine[9..17] == "function";
    assert ScheduleLine[0..8] == "schedule";
    assert SpaceEnd(ScheduleLine, 9) == 9;
    assert SpaceEnd(ScheduleLine, 8) == 9;
  }

  lemma ScheduleRef()
    ensures RefAfterSpaces(ScheduleLine, "a:b", 17, SpaceEnd(ScheduleLine, 17)) == Some(18)
  {
    assert SpaceEnd(ScheduleLine, 18) == 18;
    assert SpaceEnd(ScheduleLine, 17) == 18;
    assert ScheduleLine[18..21] == "a:b";
    assert WordBoundary(ScheduleLine, 21);
  }

  /** The `function` pattern finds the reference of `schedule function a:b` at column 18. */
  lemma ScheduleScanPlain()
    ensures ScanRefs(ScheduleLine, "a:b", 0, false) == [18]
  {
    ScheduleFunctionWord();
    ScheduleRef();
    var sf := Starts(ScheduleLine, "a:b", false);
    assert sf[9] == Some(18);
    assert Scan(sf, 3, 21) == [];
    assert Scan(sf, 3, 9) == [18];
    ScanSkips(ScheduleLine, "a:b", 0, 9);
  }

  /** So does the `schedule function` pattern. */
  lemma ScheduleScanScheduled()
    ensures ScanRefs(ScheduleLine, "a:b", 0, true) == [18]
  {
    ScheduleFunctionWord();
    ScheduleRef();
    var st := Starts(ScheduleLine, "a:b", true);
    assert st[0] == Some(18);
    assert Scan(st, 3, 21) == [];
  }

  /** `schedule function a:b` gets two identical, hence overlapping, edits. */
  lemma ScheduleTwice()
    ensures var r := LineUpdatesAsWritten(0, 0, ScheduleLine, "a:b", "a:c");
            |r| == 2 && r[0] == r[1] == Update(0, 0, 18, 21, "a:c")
  {
    ScheduleScanPlain();
    ScheduleScanScheduled();
    assert BothPatterns(ScheduleLine, "a:b") == [18, 18];
  }

  /** The scan passes over starts where no `function` is at hand. */
  lemma ScanSkips(line: string, ref: string, p: nat, q: nat)
    requires p <= q <= |line| && forall m :: p <= m < q ==> line[m] != 'f' && line[m] != '$'
    ensures ScanRefs(line, ref, p, false) == ScanRefs(line, ref, q, false)
  {
    var ss := Starts(line, ref, false);
    forall m | p <= m < q
      ensures ss[m].None?
    {
      NoRefStart(line, ref, m);
    }
    ScanNone(ss, |ref|, p, q);
  }

  /** No `function` match starts at a character other than `f` or `$`. */
  lemma NoRefStart(line: string, ref: string, p: nat)
    requires p < |line| && line[p] != 'f' && line[p] != '$'
    ensures RefStart(line, ref, p, false).None?
  {
  }

  /**
   * The updates of one line with duplicates dropped: the same ranges,
   * each once. This is what the loop over the two patterns evidently
   * intends, since a workspace edit cannot hold two overlapping
   * replacements.
   */
  function LineUpdatesDistinct(file: nat, lineIndex: nat, line: string, oldRef: string, newRef: string): (r: seq<Update>)
    ensures forall u :: u in r <==> u in LineUpdatesAsWritten(file, lineIndex, line, oldRef, newRef)
    ensures forall i, j :: 0 <= i < j < |r| ==> r[i] != r[j]
    ensures forall j :: 0 <= j < |r| ==> r[j].end == r[j].start + |oldRef| && r[j].newText == newRef && OccursAt(line, oldRef, r[j].start)
  {
    var all := LineUpdatesAsWritten(file, lineIndex, line, oldRef, newRef);
    var r := Distinct(all, {});
    assert forall j :: 0 <= j < |r| ==> r[j] in all;
    r
  }

  lemma DistinctPair(u: Update)
    ensures Distinct([u, u], {}) == [u]
  {
    assert [u, u][1..] == [u];
    assert [u][1..] == [];
    assert Distinct([u], {} + {u}) == Distinct([], {u}) == [];
    assert Distinct([u, u], {}) == [u] + Distinct([u], {} + {u});
  }

  /** Once duplicates are dropped, `schedule function a:b` gets a single edit. */
  lemma ScheduleOnce()
    ensures LineUpdatesDistinct(0, 0, ScheduleLine, "a:b", "a:c") == [Update(0, 0, 18, 21, "a:c")]
  {
    var all := LineUpdatesAsWritten(0, 0, ScheduleLine, "a:b", "a:c");
    var u := Update(0, 0, 18, 21, "a:c");
    ScheduleTwice();
    assert all == [u, u];
    DistinctPair(u);
  }

  /** The updates of the lines from `i` on, each line's in the order the two patterns push them. */
  function LinesUpdates(file: nat, lines: seq<string>, i: nat, oldRef: string, newRef: string): (r: seq<Update>)
    ensures forall u :: u in r ==> u.file == file && i <= u.line < |lines| && u.end == u.start + |oldRef| && u.newText == newRef && OccursAt(lines[u.line], oldRef, u.start)
    ensures forall l, u :: i <= l < |lines| && u in LineUpdatesAsWritten(file, l, lines[l], oldRef, newRef) ==> u in r
    decreases |lines| - i
  {
    if i >= |lines| then []
    else
      var here := LineUpdatesAsWritten(file, i, lines[i], oldRef, newRef);
      assert forall u :: u in here ==> u.file == file && u.line == i;
      here + LinesUpdates(file, lines, i + 1, oldRef, newRef)
  }

  /** A one-line text gets exactly the updates of its line, duplicates included. */
  lemma LinesUpdatesOne(file: nat, line: string, oldRef: string, newRef: string)
    ensures LinesUpdates(file, [line], 0, oldRef, newRef) == LineUpdatesAsWritten(file, 0, line, oldRef, newRef)
  {
    var here := LineUpdatesAsWritten(file, 0, line, oldRef, newRef);
    assert LinesUpdates(file, [line], 1, oldRef, newRef) == [];
    assert here + [] == here;
  }

  /** The lines of a text as `split("\n")` gives them. */
  function LinesOf(text: string): seq<string> {
    SplitOn(text, "\n")
  }

  /**
   * `findAndReplaceReferences` over the texts from file `f` on: every
   * update replaces an occurrence of the old reference, on a line of
   * its file, by the new one.
   */
  function FindAndReplaceReferences(texts: seq<string>, f: nat, oldRef: string, newRef: string): (r: seq<Update>)
    ensures forall u :: u in r ==>
              f <= u.file < |texts| && u.line < |LinesOf(texts[u.file])| && u.end == u.start + |oldRef| && u.newText == newRef
              && OccursAt(LinesOf(texts[u.file])[u.line], oldRef, u.start)
    ensures forall g: nat, l: nat, u :: f <= g < |texts| && l < |LinesOf(texts[g])| && u in LineUpdatesAsWritten(g, l, LinesOf(texts[g])[l], oldRef, newRef) ==> u in r
    decreases |texts| - f
  {
    if f >= |texts| then []
    else LinesUpdates(f, LinesOf(texts[f]), 0, oldRef, newRef) + FindAndReplaceReferences(texts, f + 1, oldRef, newRef)
  }

  // ------------------------------------------------------------ handleRename

  datatype Rename = Rename(oldPath: string, newPath: string)

  /** A rename is acted on when the old path is a function file and both paths read as references. */
  predicate RenameApplies(file: Rename) {
    EndsWith(file.oldPath, Suffix)
    && ExtractFunctionReference(file.oldPath).Some? && ExtractFunctionReference(file.newPath).Some?
  }

  /** The references a rename that applies moves from and to. */
  function OldRef(file: Rename): string
    requires RenameApplies(file)
  {
    ExtractFunctionReference(file.oldPath).value
  }

  function NewRef(file: Rename): string
    requires RenameApplies(file)
  {
    ExtractFunctionReference(file.newPath).value
  }

  /**
   * `handleRename` over the renamed files from `i`: for each one that
   * applies, the updates of all texts from its old reference to its new
   * one.
   */
  function HandleRename(files: seq<Rename>, i: nat, texts: seq<string>): (r: seq<Update>)
    ensures (forall j :: i <= j < |files| ==> !RenameApplies(files[j])) ==> r == []
    ensures forall u :: u in r ==>
              && u.file < |texts|
              && (exists j :: i <= j < |files| && RenameApplies(files[j])
                   && u.newText == NewRef(files[j]) && u.end - u.start == |OldRef(files[j])|)
    ensures forall j, u :: i <= j < |files| && RenameApplies(files[j]) && u in FindAndReplaceReferences(texts, 0, OldRef(files[j]), NewRef(files[j])) ==> u in r
    decreases |files| - i
  {
    if i >= |files| then []
    else
      var rest := HandleRename(files, i + 1, texts);
      if !RenameApplies(files[i]) then rest
      else FindAndReplaceReferences(texts, 0, OldRef(files[i]), NewRef(files[i])) + rest
  }
}
