/**
 * The item-NBT rule: an `nbt={…}` selector argument whose compound has a
 * top-level item key (`SelectedItem`, `equipment`, `Inventory`,
 * `EnderItems`) is better written with `if items`. The keys are read by a
 * character scan that tracks quoted strings and bracket depth, and takes
 * the text before each depth-0 colon outside strings as a key.
 */
module NbtItems {
  import opened Wrappers
  import opened Text
  import opened Tokens
  import opened Scans
  import opened TargetSelector

  /** `ITEM_NBT_KEYS`. */
  const ItemKeys: seq<string> := ["SelectedItem", "equipment", "Inventory", "EnderItems"]

  /** No key twice and no empty key. */
  predicate KeyList(keys: seq<string>) {
    && (forall i, j :: 0 <= i < j < |keys| ==> keys[i] != keys[j])
    && (forall i :: 0 <= i < |keys| ==> keys[i] != [])
  }

  /** Matching double or single quotes around a key taken off; a lone quote leaves nothing. */
  function Unquote(k: string): (r: string)
    ensures |r| <= |k|
  {
    if (StartsWith(k, "\"") && EndsWith(k, "\"")) || (StartsWith(k, "'") && EndsWith(k, "'")) then
      if |k| >= 2 then k[1..|k| - 1] else []
    else k
  }

  /** Only a text opening and closing with the same quote changes. */
  lemma UnquoteOnlyQuoted(k: string)
    ensures Unquote(k) != k ==> |k| >= 1 && (k[0] == '"' || k[0] == '\'') && k[|k| - 1] == k[0]
  {
    if Unquote(k) != k {
      QuotedEnds(k, "\"");
      QuotedEnds(k, "'");
    }
  }

  lemma QuotedEnds(k: string, q: string)
    requires |q| == 1
    ensures StartsWith(k, q) && EndsWith(k, q) ==> |k| >= 1 && k[0] == q[0] && k[|k| - 1] == q[0]
  {
    if StartsWith(k, q) && EndsWith(k, q) {
      assert k[..1][0] == k[0] && k[|k| - 1..][0] == k[|k| - 1];
    }
  }

  /** A text opening and closing with the same quote loses exactly those two quotes. */
  lemma UnquoteStrips(k: string)
    requires |k| >= 2 && (k[0] == '"' || k[0] == '\'') && k[|k| - 1] == k[0]
    ensures [k[0]] + Unquote(k) + [k[0]] == k
  {
    assert k[..1] == [k[0]] && k[|k| - 1..] == [k[0]];
    assert Unquote(k) == k[1..|k| - 1];
    assert k == [k[0]] + k[1..|k| - 1] + [k[0]];
  }

  /** `if (key && !keys.includes(key)) keys.push(key)`. */
  function AddKey(keys: seq<string>, key: string): (r: seq<string>)
    ensures forall k :: k in r <==> k in keys || (k == key && key != [])
    ensures KeyList(keys) ==> KeyList(r)
    ensures |keys| <= |r| && r[..|keys|] == keys
  {
    if key != [] && key !in keys then keys + [key] else keys
  }

  // ------------------------------------------------------------ the scan as written

  /** The scan's variables: the text since the last separator, the bracket depth, the open quote (`inString` and `stringChar`), the keys. */
  datatype KeyScan = KeyScan(current: string, depth: int, quote: Option<char>, keys: seq<string>)

  const Start: KeyScan := KeyScan([], 0, None, [])

  /** A quote character not escaped by the character before it. */
  predicate IsQuoteAt(inner: string, i: nat)
    requires i < |inner|
  {
    (inner[i] == '"' || inner[i] == '\'') && (i == 0 || inner[i - 1] != '\\')
  }

  /** One turn of the loop over `inner`. */
  function Step(inner: string, i: nat, s: KeyScan): KeyScan
    requires i < |inner|
  {
    var ch := inner[i];
    if IsQuoteAt(inner, i) then
      var quote := if s.quote.None? then Some(ch) else if s.quote == Some(ch) then None else s.quote;
      s.(quote := quote, current := s.current + [ch])
    else if s.quote.None? then
      if ch == '{' || ch == '[' then s.(depth := s.depth + 1, current := s.current + [ch])
      else if ch == '}' || ch == ']' then s.(depth := s.depth - 1, current := s.current + [ch])
      else if ch == ':' && s.depth == 0 then s.(keys := AddKey(s.keys, Unquote(Trim(s.current))), current := [])
      else if ch == ',' && s.depth == 0 then s.(current := [])
      else s.(current := s.current + [ch])
    else s.(current := s.current + [ch])
  }

  /** The loop from `i` to the end. */
  function Run(inner: string, i: nat, s: KeyScan): (r: KeyScan)
    requires i <= |inner|
    ensures KeyList(s.keys) ==> KeyList(r.keys)
    decreases |inner| - i
  {
    if i == |inner| then s else Run(inner, i + 1, Step(inner, i, s))
  }

  /**
   * The value is a compound: it starts with `{` and ends with `}`, which a
   * single character cannot both do.
   */
  predicate Braced(v: string) {
    |v| >= 2 && v[0] == '{' && v[|v| - 1] == '}'
  }

  lemma BracedIs(v: string)
    ensures Braced(v) <==> StartsWith(v, "{") && EndsWith(v, "}")
  {
    if |v| >= 1 {
      assert v[..1] == [v[0]] && v[|v| - 1..] == [v[|v| - 1]];
    }
  }

  // ------------------------------------------------------------ the reference reading

  /** The quote open before position `i`: quotes not escaped open a string, and the same quote closes it. */
  function QuoteAt(inner: string, i: nat): Option<char>
    requires i <= |inner|
  {
    if i == 0 then None
    else
      var q := QuoteAt(inner, i - 1);
      if !IsQuoteAt(inner, i - 1) then q
      else if q.None? then Some(inner[i - 1])
      else if q == Some(inner[i - 1]) then None
      else q
  }

  /** What the character at `j` adds to the depth: brackets count only outside strings. */
  function Weight(inner: string, j: nat): int
    requires j < |inner|
  {
    if IsQuoteAt(inner, j) || QuoteAt(inner, j).Some? then 0
    else if inner[j] == '{' || inner[j] == '[' then 1
    else if inner[j] == '}' || inner[j] == ']' then -1
    else 0
  }

  /** The bracket depth before position `i`: the sum of the weights before it. */
  function DepthAt(inner: string, i: nat): int
    requires i <= |inner|
  {
    if i == 0 then 0 else DepthAt(inner, i - 1) + Weight(inner, i - 1)
  }

  /** A separator: a `:` or `,` at depth 0 outside strings. */
  predicate SepAt(inner: string, j: nat)
    requires j < |inner|
  {
    && !IsQuoteAt(inner, j) && QuoteAt(inner, j).None? && DepthAt(inner, j) == 0
    && (inner[j] == ':' || inner[j] == ',')
  }

  /** A separator that ends a key. */
  predicate KeyColon(inner: string, j: nat)
    requires j < |inner|
  {
    SepAt(inner, j) && inner[j] == ':'
  }

  /** Where the segment holding position `i` starts: just after the last separator before `i`. */
  function SegStart(inner: string, i: nat): (a: nat)
    requires i <= |inner|
    ensures a <= i
    ensures forall j :: a <= j < i ==> !SepAt(inner, j)
    ensures a == 0 || SepAt(inner, a - 1)
  {
    if i == 0 then 0 else if SepAt(inner, i - 1) then i else SegStart(inner, i - 1)
  }

  /** The key read from the segment that ends at `j`: trimmed and unquoted. */
  function SegKey(inner: string, j: nat): string
    requires j <= |inner|
  {
    Unquote(Trim(inner[SegStart(inner, j)..j]))
  }

  /** The keys of the key colons before `i`, in order and without repeats. */
  function ColonKeys(inner: string, i: nat): (r: seq<string>)
    requires i <= |inner|
    ensures KeyList(r)
  {
    if i == 0 then []
    else
      var keys := ColonKeys(inner, i - 1);
      if KeyColon(inner, i - 1) then AddKey(keys, SegKey(inner, i - 1)) else keys
  }

  /** The scan state the reference reading predicts at `i`. */
  predicate Tracks(inner: string, i: nat, s: KeyScan)
    requires i <= |inner|
  {
    && s.quote == QuoteAt(inner, i) && s.depth == DepthAt(inner, i)
    && s.current == inner[SegStart(inner, i)..i] && s.keys == ColonKeys(inner, i)
  }

  /** One turn keeps the open quote and the depth on the reference reading. */
  lemma StepContext(inner: string, i: nat, s: KeyScan)
    requires i < |inner| && s.quote == QuoteAt(inner, i) && s.depth == DepthAt(inner, i)
    ensures Step(inner, i, s).quote == QuoteAt(inner, i + 1) && Step(inner, i, s).depth == DepthAt(inner, i + 1)
  {
  }

  /** One turn keeps the text since the last separator. */
  lemma StepCurrent(inner: string, i: nat, s: KeyScan)
    requires i < |inner| && s.quote == QuoteAt(inner, i) && s.depth == DepthAt(inner, i)
    requires s.current == inner[SegStart(inner, i)..i]
    ensures Step(inner, i, s).current == inner[SegStart(inner, i + 1)..i + 1]
  {
    var a := SegStart(inner, i);
    if SepAt(inner, i) {
      assert Step(inner, i, s).current == [];
    } else {
      assert Step(inner, i, s).current == s.current + [inner[i]];
      assert inner[a..i + 1] == inner[a..i] + [inner[i]];
    }
  }

  /** One turn keeps the keys. */
  lemma StepKeys(inner: string, i: nat, s: KeyScan)
    requires i < |inner| && s.quote == QuoteAt(inner, i) && s.depth == DepthAt(inner, i)
    requires s.current == inner[SegStart(inner, i)..i] && s.keys == ColonKeys(inner, i)
    ensures Step(inner, i, s).keys == ColonKeys(inner, i + 1)
  {
    if KeyColon(inner, i) {
      assert Step(inner, i, s).keys == AddKey(s.keys, SegKey(inner, i));
    } else {
      assert Step(inner, i, s).keys == s.keys;
    }
  }

  /** One turn keeps the scan on the reference reading. */
  lemma StepTracks(inner: string, i: nat, s: KeyScan)
    requires i < |inner| && Tracks(inner, i, s)
    ensures Tracks(inner, i + 1, Step(inner, i, s))
  {
    StepContext(inner, i, s);
    StepCurrent(inner, i, s);
    StepKeys(inner, i, s);
  }

  /** The loop ends on the reference reading of the whole text. */
  lemma {:induction false} RunTracks(inner: string, i: nat, s: KeyScan)
    requires i <= |inner| && Tracks(inner, i, s)
    ensures Tracks(inner, |inner|, Run(inner, i, s))
    decreases |inner| - i
  {
    if i < |inner| {
      StepTracks(inner, i, s);
      RunTracks(inner, i + 1, Step(inner, i, s));
    }
  }

  /** The last segment, after the last separator. */
  function LastSegment(inner: string): string {
    inner[SegStart(inner, |inner|)..]
  }

  // ------------------------------------------------------------ extracting the keys

  /**
   * `extractNbtKeys` as written: after the loop, the text since the last
   * separator is also taken as a key when it is not blank and the depth is
   * back to 0. In a well-formed compound that text is the last value, so
   * `{CustomName:"EnderItems"}` yields the key `EnderItems`.
   */
  function ExtractNbtKeysAsWritten(v: string): (r: seq<string>)
    ensures !Braced(v) ==> r == []
    ensures KeyList(r)
  {
    if !Braced(v) then []
    else
      var s := Run(Inner(v), 0, Start);
      if Trim(s.current) != [] && s.depth == 0 then AddKey(s.keys, Unquote(Trim(s.current))) else s.keys
  }

  /** The reference reading with the last segment taken as a key, as the source's closing block does. */
  function WithLastSegment(inner: string): seq<string> {
    var last := Trim(LastSegment(inner));
    var keys := ColonKeys(inner, |inner|);
    if last != [] && DepthAt(inner, |inner|) == 0 then AddKey(keys, Unquote(last)) else keys
  }

  /** As written, the keys are those of the key colons plus the last segment. */
  lemma AsWrittenReads(v: string)
    requires Braced(v)
    ensures ExtractNbtKeysAsWritten(v) == WithLastSegment(Inner(v))
  {
    var inner := Inner(v);
    var s := Run(inner, 0, Start);
    RunTracks(inner, 0, Start);
    assert s.current == LastSegment(inner) && s.depth == DepthAt(inner, |inner|) && s.keys == ColonKeys(inner, |inner|);
  }

  /** The keys of a compound: those before its depth-0 colons outside strings; no value is read as a key. */
  function ExtractNbtKeys(v: string): (r: seq<string>)
    ensures !Braced(v) ==> r == []
    ensures KeyList(r)
    ensures Braced(v) ==> r == ColonKeys(Inner(v), |Inner(v)|)
  {
    if !Braced(v) then []
    else
      var inner := Inner(v);
      RunTracks(inner, 0, Start);
      Run(inner, 0, Start).keys
  }

  /** A key is read exactly from the segment before some key colon, and every such non-empty segment gives one. */
  lemma {:induction false} ColonKeysAre(inner: string, i: nat)
    requires i <= |inner|
    ensures forall k :: k in ColonKeys(inner, i) <==> exists j :: 0 <= j < i && KeyColon(inner, j) && SegKey(inner, j) == k && k != []
  {
    if i > 0 {
      ColonKeysAre(inner, i - 1);
    }
  }

  /** The keys found up to `i` are still there at `j`. */
  lemma {:induction false} ColonKeysGrow(inner: string, i: nat, j: nat)
    requires i <= j <= |inner|
    ensures forall k :: k in ColonKeys(inner, i) ==> k in ColonKeys(inner, j)
    decreases j - i
  {
    if i < j {
      ColonKeysGrow(inner, i, j - 1);
    }
  }

  // ------------------------------------------------------------ plain words

  /** A character that is no quote, bracket, separator or whitespace. */
  predicate PlainChar(c: char) {
    !IsSpace(c) && c != '"' && c != '\'' && c != '{' && c != '}' && c != '[' && c != ']' && c != ':' && c != ','
  }

  /** A bare word such as `Inventory`. */
  predicate PlainWord(w: string) {
    w != [] && forall i :: 0 <= i < |w| ==> PlainChar(w[i])
  }

  /** A bare word is its own trimmed, unquoted key. */
  lemma PlainKey(w: string)
    requires PlainWord(w)
    ensures Unquote(Trim(w)) == w
  {
    assert PlainChar(w[0]) && PlainChar(w[|w| - 1]);
    TrimUntouched(w);
  }

  /** Over plain characters from a segment start outside strings at depth 0, nothing changes. */
  lemma {:induction false} PlainStretch(inner: string, a: nat, j: nat)
    requires a <= j <= |inner| && (a == 0 || SepAt(inner, a - 1))
    requires QuoteAt(inner, a).None? && DepthAt(inner, a) == 0
    requires forall m :: a <= m < j ==> PlainChar(inner[m])
    ensures QuoteAt(inner, j).None? && DepthAt(inner, j) == 0
    ensures SegStart(inner, j) == a && ColonKeys(inner, j) == ColonKeys(inner, a)
    decreases j - a
  {
    if a < j {
      PlainStretch(inner, a, j - 1);
      assert PlainChar(inner[j - 1]);
    }
  }

  /** In `k:w` with a bare key `k`, the first segment is the key `k`, read at the colon. */
  lemma PairKey(k: string, w: string)
    requires PlainWord(k)
    ensures var inner := k + ":" + w;
            && ColonKeys(inner, |k| + 1) == [k]
            && QuoteAt(inner, |k| + 1).None? && DepthAt(inner, |k| + 1) == 0 && SepAt(inner, |k|)
  {
    var inner := k + ":" + w;
    PairPrefix(k, w);
    assert inner[|k|] == ':';
    assert SepAt(inner, |k|);
    PairSegment(k, w);
    assert ColonKeys(inner, |k| + 1) == AddKey(ColonKeys(inner, |k|), SegKey(inner, |k|));
  }

  /** Before the colon of `k:w` nothing opens and no key is read. */
  lemma PairPrefix(k: string, w: string)
    requires PlainWord(k)
    ensures var inner := k + ":" + w;
            && QuoteAt(inner, |k|).None? && DepthAt(inner, |k|) == 0
            && SegStart(inner, |k|) == 0 && ColonKeys(inner, |k|) == []
  {
    var inner := k + ":" + w;
    assert forall m :: 0 <= m < |k| ==> inner[m] == k[m];
    PlainStretch(inner, 0, |k|);
  }

  /** The segment before the colon of `k:w` is the key `k`. */
  lemma PairSegment(k: string, w: string)
    requires PlainWord(k)
    ensures var inner := k + ":" + w;
            |k| < |inner| && SegKey(inner, |k|) == k
  {
    var inner := k + ":" + w;
    PairPrefix(k, w);
    assert inner[..|k|] == k;
    PlainKey(k);
  }

  /** The compound `{k:w}`. */
  function Pair(k: string, w: string): string {
    "{" + k + ":" + w + "}"
  }

  lemma PairInner(k: string, w: string)
    ensures Braced(Pair(k, w)) && Inner(Pair(k, w)) == k + ":" + w
  {
    var v := Pair(k, w);
    assert v == "{" + (k + ":" + w) + "}";
  }

  /** A compound opening with a bare key has that key, whatever value follows. */
  lemma FirstKeyKept(k: string, w: string)
    requires PlainWord(k)
    ensures k in ExtractNbtKeys(Pair(k, w))
  {
    PairInner(k, w);
    var inner := k + ":" + w;
    PairKey(k, w);
    ColonKeysGrow(inner, |k| + 1, |inner|);
  }

  /** After the colon of `k:w` with a bare value, the value is the last segment and no key is added. */
  lemma PairTail(k: string, w: string)
    requires PlainWord(k) && PlainWord(w)
    ensures var inner := k + ":" + w;
            && ColonKeys(inner, |inner|) == [k] && DepthAt(inner, |inner|) == 0 && LastSegment(inner) == w
  {
    var inner := k + ":" + w;
    PairKey(k, w);
    assert forall m :: |k| + 1 <= m < |inner| ==> inner[m] == w[m - |k| - 1];
    PlainStretch(inner, |k| + 1, |inner|);
    assert inner[|k| + 1..] == w;
  }

  /** In `{k:w}` with bare words, the key is `k` alone, but as written the value `w` is a key too. */
  lemma PairKeys(k: string, w: string)
    requires PlainWord(k) && PlainWord(w) && k != w
    ensures ExtractNbtKeys(Pair(k, w)) == [k]
    ensures ExtractNbtKeysAsWritten(Pair(k, w)) == [k, w]
  {
    PairInner(k, w);
    PairTail(k, w);
    PlainKey(w);
    AsWrittenReads(Pair(k, w));
  }

  // ------------------------------------------------------------ quoted keys

  /** Inside a double-quoted string without `"`, nothing closes, nests or separates. */
  lemma {:induction false} QuoteStretch(inner: string, a: nat, j: nat)
    requires a <= j <= |inner| && QuoteAt(inner, a) == Some('"')
    requires forall m :: a <= m < j ==> inner[m] != '"'
    ensures QuoteAt(inner, j) == Some('"') && DepthAt(inner, j) == DepthAt(inner, a)
    ensures SegStart(inner, j) == SegStart(inner, a) && ColonKeys(inner, j) == ColonKeys(inner, a)
    decreases j - a
  {
    if a < j {
      QuoteStretch(inner, a, j - 1);
      assert inner[j - 1] != '"';
    }
  }

  /** The quoted key `"k"` opening `"k":w`. */
  function QuotedPair(k: string, w: string): string {
    "\"" + k + "\"" + ":" + w
  }

  /** Through the closing quote of `"k":w`, the string opens and closes and no key is read. */
  lemma QuotedPrefix(k: string, w: string)
    requires k != [] && '"' !in k && k[|k| - 1] != '\\'
    ensures var inner := QuotedPair(k, w);
            && |k| + 2 < |inner| && QuoteAt(inner, |k| + 2).None? && DepthAt(inner, |k| + 2) == 0
            && SegStart(inner, |k| + 2) == 0 && ColonKeys(inner, |k| + 2) == []
  {
    var inner := QuotedPair(k, w);
    assert inner[0] == '"' && IsQuoteAt(inner, 0);
    assert QuoteAt(inner, 1) == Some('"') && SegStart(inner, 1) == 0;
    assert forall m :: 1 <= m < |k| + 1 ==> inner[m] == k[m - 1];
    assert forall m :: 1 <= m < |k| + 1 ==> inner[m] != '"' by {
      forall m | 1 <= m < |k| + 1 ensures inner[m] != '"' {
        assert k[m - 1] in k;
      }
    }
    QuoteStretch(inner, 1, |k| + 1);
    assert inner[|k| + 1] == '"' && inner[|k|] == k[|k| - 1];
    assert IsQuoteAt(inner, |k| + 1);
  }

  /** The segment before the colon of `"k":w` reads as the key `k`. */
  lemma QuotedSegment(k: string, w: string)
    requires k != [] && '"' !in k && k[|k| - 1] != '\\'
    ensures var inner := QuotedPair(k, w);
            |k| + 2 < |inner| && SegKey(inner, |k| + 2) == k
  {
    var inner := QuotedPair(k, w);
    QuotedPrefix(k, w);
    var seg := inner[0..|k| + 2];
    assert seg == "\"" + k + "\"";
    TrimUntouched(seg);
    UnquoteStrips(seg);
    assert [seg[0]] + k + [seg[0]] == seg;
  }

  /**
   * A double-quoted key is read without its quotes, and a `:` or `,`
   * inside it separates nothing: `{"a:b":1}` has the key `a:b`.
   */
  lemma QuotedKeyKept(k: string, w: string)
    requires k != [] && '"' !in k && k[|k| - 1] != '\\'
    ensures k in ExtractNbtKeys("{" + QuotedPair(k, w) + "}")
  {
    var inner := QuotedPair(k, w);
    var v := "{" + inner + "}";
    assert Braced(v) && Inner(v) == inner;
    QuotedPrefix(k, w);
    assert inner[|k| + 2] == ':';
    assert KeyColon(inner, |k| + 2);
    QuotedSegment(k, w);
    assert ColonKeys(inner, |k| + 3) == AddKey(ColonKeys(inner, |k| + 2), SegKey(inner, |k| + 2));
    ColonKeysGrow(inner, |k| + 3, |inner|);
  }

  // ------------------------------------------------------------ the rule

  /** A selector of the line: its arguments and its span. */
  datatype FoundSelector = FoundSelector(arguments: seq<SelectorArgument>, startIndex: nat, endIndex: nat)

  /**
   * A selector that `@([aepnrs])(\[[^\]]*\])?` matches at its start
   * index, with the arguments parsed from its `[…]` part.
   */
  predicate Parsed(line: string, s: FoundSelector) {
    && s.startIndex + 2 <= s.endIndex <= |line|
    && line[s.startIndex] == '@' && line[s.startIndex + 1] in AnyLetter
    && s.endIndex - (s.startIndex + 2) == BracketLen(line, s.startIndex + 2)
    && s.arguments == ParseArguments(line[s.startIndex + 2..s.endIndex])
  }

  /**
   * `parseAllSelectors`: every `@([aepnrs])(\[[^\]]*\])?` of the line,
   * left to right, with the arguments parsed from its `[…]` part, and no
   * match dropped: every place a selector starts lies inside a reported one.
   */
  function ParseAllSelectors(line: string): (r: seq<FoundSelector>)
    ensures forall k :: 0 <= k < |r| ==> Parsed(line, r[k])
    ensures forall k :: 0 <= k < |r| - 1 ==> r[k].endIndex <= r[k + 1].startIndex
    ensures forall p :: 0 <= p <= |line| && SelectorAt(line, p, AnyLetter).Some? ==>
              exists k :: 0 <= k < |r| && r[k].startIndex <= p < r[k].endIndex
  {
    var ms := ScanSelectors(line, 0, AnyLetter);
    var r := seq(|ms|, k requires 0 <= k < |ms| => FoundSelector(ParseArguments(ms[k].args), ms[k].start, ms[k].end));
    FoundOfMatches(line, ms, r);
    r
  }

  lemma MatchParsed(line: string, m: SelectorMatch)
    requires IsMatch(line, m, AnyLetter)
    ensures Parsed(line, FoundSelector(ParseArguments(m.args), m.start, m.end))
  {
    assert line[m.start + 2..m.end] == m.args;
  }

  /** The selectors built from a complete scan keep its order and its coverage. */
  lemma FoundOfMatches(line: string, ms: seq<SelectorMatch>, r: seq<FoundSelector>)
    requires ScanOk(line, 0, ms, AnyLetter) && Covers(line, 0, ms, AnyLetter)
    requires |r| == |ms| && forall k :: 0 <= k < |ms| ==> r[k] == FoundSelector(ParseArguments(ms[k].args), ms[k].start, ms[k].end)
    ensures forall k :: 0 <= k < |r| ==> Parsed(line, r[k])
    ensures forall k :: 0 <= k < |r| - 1 ==> r[k].endIndex <= r[k + 1].startIndex
    ensures forall p :: 0 <= p <= |line| && SelectorAt(line, p, AnyLetter).Some? ==>
              exists k :: 0 <= k < |r| && r[k].startIndex <= p < r[k].endIndex
  {
    forall k | 0 <= k < |r| ensures Parsed(line, r[k]) {
      MatchParsed(line, ms[k]);
    }
    forall k | 0 <= k < |r| - 1 ensures r[k].endIndex <= r[k + 1].startIndex {
      assert ms[k].end <= ms[k + 1].start;
    }
    forall p | 0 <= p <= |line| && SelectorAt(line, p, AnyLetter).Some?
      ensures exists k :: 0 <= k < |r| && r[k].startIndex <= p < r[k].endIndex
    {
      var k :| 0 <= k < |ms| && ms[k].start <= p < ms[k].end;
      assert r[k].startIndex <= p < r[k].endIndex;
    }
  }

  /** One of the item keys is among `keys`. */
  predicate HasItemKey(keys: seq<string>) {
    exists k :: k in ItemKeys && k in keys
  }

  /**
   * The keys of an argument's value. As written, a negated value loses its
   * first character a second time (parsing already took the `!` off) and
   * the last segment counts as a key.
   */
  function ArgKeys(a: SelectorArgument, asWritten: bool): seq<string> {
    if asWritten then ExtractNbtKeysAsWritten(if a.negated && a.value != [] then a.value[1..] else a.value)
    else ExtractNbtKeys(a.value)
  }

  /** An `nbt` argument with a value whose keys hold an item key. */
  predicate Flagged(a: SelectorArgument, asWritten: bool) {
    a.key == "nbt" && a.value != [] && HasItemKey(ArgKeys(a, asWritten))
  }

  /** A warning on `[start, end)` of line `line`. */
  datatype NbtDiag = NbtDiag(line: nat, start: int, end: int)

  /** The range of an argument: its raw text searched for from the selector's start. */
  function RangeOf(lineIndex: nat, line: string, from: nat, a: SelectorArgument): (d: NbtDiag)
    requires from <= |line|
    ensures d.line == lineIndex && d.end == d.start + |a.raw|
    ensures d.start == -1 || (from <= d.start && OccursAt(line, a.raw, d.start))
    ensures d.start == -1 ==> forall j :: from <= j ==> !OccursAt(line, a.raw, j)
  {
    var k := IndexOfFrom(line, a.raw, from);
    NbtDiag(lineIndex, k, k + |a.raw|)
  }

  /** The warnings for the arguments of one selector, in order. */
  function ArgDiags(lineIndex: nat, line: string, from: nat, args: seq<SelectorArgument>, asWritten: bool): (r: seq<NbtDiag>)
    requires from <= |line|
    ensures |r| <= |args|
    ensures forall d :: d in r <==>
              exists j :: 0 <= j < |args| && Flagged(args[j], asWritten) && d == RangeOf(lineIndex, line, from, args[j])
  {
    if args == [] then []
    else
      var rest := ArgDiags(lineIndex, line, from, args[1..], asWritten);
      assert forall j :: 1 <= j < |args| ==> args[j] == args[1..][j - 1];
      (if Flagged(args[0], asWritten) then [RangeOf(lineIndex, line, from, args[0])] else []) + rest
  }

  /** The warnings for every selector, in order. */
  function SelectorDiags(lineIndex: nat, line: string, sels: seq<FoundSelector>, asWritten: bool): (r: seq<NbtDiag>)
    requires forall k :: 0 <= k < |sels| ==> sels[k].startIndex <= |line|
    ensures forall d :: d in r <==>
              exists k, j :: 0 <= k < |sels| && 0 <= j < |sels[k].arguments| && Flagged(sels[k].arguments[j], asWritten)
                             && d == RangeOf(lineIndex, line, sels[k].startIndex, sels[k].arguments[j])
  {
    if sels == [] then []
    else
      var rest := SelectorDiags(lineIndex, line, sels[1..], asWritten);
      assert forall k :: 1 <= k < |sels| ==> sels[k] == sels[1..][k - 1];
      ArgDiags(lineIndex, line, sels[0].startIndex, sels[0].arguments, asWritten) + rest
  }

  /** `checkNbtItems` as written. */
  function CheckNbtItemsAsWritten(lineIndex: nat, line: string, enabled: bool): (r: seq<NbtDiag>)
    ensures !enabled ==> r == []
    ensures forall d :: d in r <==>
              enabled && exists k, j :: 0 <= k < |ParseAllSelectors(line)| && 0 <= j < |ParseAllSelectors(line)[k].arguments|
                                       && Flagged(ParseAllSelectors(line)[k].arguments[j], true)
                                       && d == RangeOf(lineIndex, line, ParseAllSelectors(line)[k].startIndex, ParseAllSelectors(line)[k].arguments[j])
  {
    if !enabled then [] else SelectorDiags(lineIndex, line, ParseAllSelectors(line), true)
  }

  /** `checkNbtItems` with the keys read from the value as parsed, and values never taken as keys. */
  function CheckNbtItems(lineIndex: nat, line: string, enabled: bool): (r: seq<NbtDiag>)
    ensures !enabled ==> r == []
    ensures forall d :: d in r <==>
              enabled && exists k, j :: 0 <= k < |ParseAllSelectors(line)| && 0 <= j < |ParseAllSelectors(line)[k].arguments|
                                       && Flagged(ParseAllSelectors(line)[k].arguments[j], false)
                                       && d == RangeOf(lineIndex, line, ParseAllSelectors(line)[k].startIndex, ParseAllSelectors(line)[k].arguments[j])
  {
    if !enabled then [] else SelectorDiags(lineIndex, line, ParseAllSelectors(line), false)
  }

  // ------------------------------------------------------------ findings

  /**
   * A negated compound `nbt=!{k:…}` is never flagged as written: the value
   * after the second strip no longer starts with `{`. Read from the value
   * as parsed, its bare item key is found.
   */
  lemma NegatedMissed(a: SelectorArgument, k: string, w: string)
    requires a.key == "nbt" && a.negated && a.value == Pair(k, w)
    requires PlainWord(k) && k in ItemKeys
    ensures !Flagged(a, true)
    ensures Flagged(a, false)
  {
    assert a.value[1..][0] == k[0] && PlainChar(k[0]);
    FirstKeyKept(k, w);
  }

  /** As written, a bare item-key value such as `{CustomName:EnderItems}` is flagged; read as a value it is not. */
  lemma ValueTaken(a: SelectorArgument, k: string, w: string)
    requires a.key == "nbt" && !a.negated && a.value == Pair(k, w)
    requires PlainWord(k) && PlainWord(w) && k !in ItemKeys && w in ItemKeys
    ensures Flagged(a, true)
    ensures !Flagged(a, false)
  {
    PairKeys(k, w);
    assert w in ExtractNbtKeysAsWritten(Pair(k, w));
  }
}
