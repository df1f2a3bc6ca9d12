/** jsonExtractString of src/BedrockKeyExchange.cpp, and how it sees what replaceJsonStringValue of
    tools/login.cpp writes. */
module JsonExtract {
  import opened Wrappers
  import opened Text
  import opened JsonTree
  import opened JsonEdit
  import opened JsonSpaced
  import opened JsonTail

  function UnescapeChar(c: char): char {
    if c == 'b' then '\U{8}'
    else if c == 'f' then '\U{c}'
    else if c == 'n' then '\n'
    else if c == 'r' then '\r'
    else if c == 't' then '\t'
    else c
  }

  /** The unescaped string body that starts at `i`, None when it has no closing quote. */
  function Unescaped(t: string, i: nat, esc: bool): Option<string>
    requires i <= |t|
    decreases |t| - i
  {
    if i == |t| then None
    else if esc then Before(UnescapeChar(t[i]), Unescaped(t, i + 1, false))
    else if t[i] == '\\' then Unescaped(t, i + 1, true)
    else if t[i] == '"' then Some("")
    else Before(t[i], Unescaped(t, i + 1, false))
  }

  function Before(c: char, r: Option<string>): Option<string> {
    if r.None? then None else Some([c] + r.value)
  }

  /** Where the string value of a key begins: just after its opening quote. */
  function ValueStart(t: string, key: string): (r: Option<nat>)
    ensures r.Some? ==> 0 < r.value <= |t| && t[r.value - 1] == '"'
  {
    var k := Find(t, Quoted(key), 0);
    if k.None? then None else
    var c := Find(t, ":", k.value);
    if c.None? then None else
    var p := SkipSpaces(t, c.value + 1);
    if p >= |t| || t[p] != '"' then None else Some(p + 1)
  }

  /** The value jsonExtractString returns; None where it throws. */
  function Extract(t: string, key: string): Option<string> {
    var s := ValueStart(t, key);
    if s.None? then None else Unescaped(t, s.value, false)
  }

  method JsonExtractString(json: string, key: string) returns (r: Option<string>)
    ensures r == Extract(json, key)
  {
    var found := Find(json, Quoted(key), 0);
    if found.None? {
      return None;
    }
    found := Find(json, ":", found.value);
    if found.None? {
      return None;
    }
    var start := found.value + 1;
    var pos := start;
    while pos < |json| && IsSpace(json[pos])
      invariant start <= pos <= |json|
      invariant SkipSpaces(json, start) == SkipSpaces(json, pos)
    {
      pos := pos + 1;
    }
    if pos >= |json| || json[pos] != '"' {
      return None;
    }
    pos := pos + 1;
    r := ReadBody(json, pos);
  }

  /** The character loop of jsonExtractString. */
  method ReadBody(json: string, start: nat) returns (r: Option<string>)
    requires start <= |json|
    ensures r == Unescaped(json, start, false)
  {
    var value, escaped, pos := "", false, start;
    AheadOne("", ' ', Unescaped(json, start, false));
    while pos < |json|
      invariant pos <= |json|
      invariant Unescaped(json, start, false) == Ahead(value, Unescaped(json, pos, escaped))
    {
      var c := json[pos];
      AheadOne(value, if escaped then UnescapeChar(c) else c, Unescaped(json, pos + 1, false));
      if escaped {
        value := value + [UnescapeChar(c)];
        escaped := false;
      } else if c == '\\' {
        escaped := true;
      } else if c == '"' {
        return Some(value);
      } else {
        value := value + [c];
      }
      pos := pos + 1;
    }
    return None;
  }

  ghost function Ahead(a: string, r: Option<string>): Option<string> {
    if r.None? then None else Some(a + r.value)
  }

  lemma AheadOne(a: string, c: char, r: Option<string>)
    ensures Ahead(a, Before(c, r)) == Ahead(a + [c], r)
    ensures Ahead(a, Some("")) == Some(a)
    ensures Ahead("", r) == r
  {
    if r.Some? {
      assert a + ([c] + r.value) == a + [c] + r.value;
      assert "" + r.value == r.value;
    }
    assert a + "" == a;
  }

  // ---------- what a body means ----------

  /** What a character behind a backslash stands for: the escapes of one character of section 7 of RFC
      8259, and any other character itself. */
  predicate StandsFor(c: char, meaning: char) {
    if c == 'b' then meaning as int == 8
    else if c == 't' then meaning as int == 9
    else if c == 'n' then meaning as int == 10
    else if c == 'f' then meaning as int == 12
    else if c == 'r' then meaning as int == 13
    else meaning == c
  }

  /** A body is read character by character: an escape is what it stands for, a bare quote ends the
      body, and a body without one is refused. */
  lemma BodyMeans(t: string, i: nat, meaning: char)
    requires i < |t|
    ensures t[i] == '"' ==> Unescaped(t, i, false) == Some("")
    ensures t[i] != '"' && t[i] != '\\' ==> Unescaped(t, i, false) == Before(t[i], Unescaped(t, i + 1, false))
    ensures t[i] == '\\' && i + 1 < |t| && StandsFor(t[i + 1], meaning) ==>
              Unescaped(t, i, false) == Before(meaning, Unescaped(t, i + 2, false))
    ensures t[i] == '\\' && i + 1 == |t| ==> Unescaped(t, i, false) == None
    ensures Unescaped(t, |t|, false) == None
  {
    if t[i] == '\\' && i + 1 < |t| && StandsFor(t[i + 1], meaning) {
      assert Unescaped(t, i, false) == Before(UnescapeChar(t[i + 1]), Unescaped(t, i + 2, false));
      OneMeaning(t[i + 1], meaning);
    }
  }

  lemma OneMeaning(c: char, meaning: char)
    requires StandsFor(c, meaning)
    ensures meaning == UnescapeChar(c)
  {
    assert meaning as int == UnescapeChar(c) as int;
  }

  /** jsonExtractString on any text: behind the key, its colon and spaces, an escaped string is read
      back, and whatever is no quote is refused. */
  lemma ExtractedFrom(t: string, pre: string, key: string, gap: string, sp: string, value: string, tail: string)
    requires Keyed(t, pre, key, gap, sp + ("\"" + (EscapeJson(value) + ("\"" + tail)))) && Spaces(sp)
    ensures Extract(t, key) == Some(value)
  {
    hide *;
    var c := |pre| + |key| + 2 + |gap|;
    KeyedAt(t, pre, key, gap, sp + ("\"" + (EscapeJson(value) + ("\"" + tail))));
    BodyBehind(t, c + 1, sp, EscapeJson(value), tail);
    SpacesThenQuote(t, c + 1, sp);
    StartFound(t, key, |pre|, c, c + 1 + |sp|);
    EscapedReads(t, c + 2 + |sp|, value);
    ExtractStart(t, key, c + 2 + |sp|);
  }

  lemma SpacesThenQuote(t: string, i: nat, sp: string)
    requires At(t, i, sp) && Spaces(sp) && i + |sp| < |t| && t[i + |sp|] == '"'
    ensures SkipSpaces(t, i) == i + |sp|
  {
    assert t[i..i + |sp|] == sp;
    forall x | i <= x < i + |sp|
      ensures IsSpace(t[x])
    {
      assert t[x] == t[i..i + |sp|][x - i];
    }
    SkipSpacesIs(t, i, i + |sp|);
  }

  lemma StartFound(t: string, key: string, k: nat, c: nat, p: nat)
    requires Find(t, Quoted(key), 0) == Some(k) && Find(t, ":", k) == Some(c)
    requires c < p < |t| && SkipSpaces(t, c + 1) == p && t[p] == '"'
    ensures ValueStart(t, key) == Some(p + 1)
  {
    hide Find, SkipSpaces, Quoted;
  }

  lemma ExtractStart(t: string, key: string, p: nat)
    requires ValueStart(t, key) == Some(p)
    ensures p <= |t| && Extract(t, key) == Unescaped(t, p, false)
  {
    hide ValueStart, Unescaped;
  }

  lemma RefusedBehind(t: string, pre: string, key: string, gap: string, sp: string, rest: string)
    requires Keyed(t, pre, key, gap, sp + rest) && Spaces(sp)
    requires rest != "" ==> !IsSpace(rest[0]) && rest[0] != '"'
    ensures Extract(t, key) == None
  {
    hide Find, Keyed, SkipSpaces;
    var c := |pre| + |key| + 2 + |gap|;
    KeyedAt(t, pre, key, gap, sp + rest);
    assert sp + rest == sp + (rest + "");
    ThreeParts(t, c + 1, sp, rest, "");
    SkipSpacesIs(t, c + 1, c + 1 + |sp|);
  }

  // ---------- replacing a value and extracting it ----------

  /** The key's first colon is followed, after spaces, by a quote inside the key itself. */
  predicate Straddles(key: string) {
    var j := Find(key, ":", 0);
    j.Some? &&
    var q := SkipSpaces(key, j.value + 1);
    q < |key| && key[q] == '"'
  }

  lemma CommonCharsFrom(t: string, u: string, n: nat)
    requires n <= |t| && n <= |u| && t[..n] == u[..n]
    ensures forall x | 0 <= x < n :: t[x] == u[x]
  {
    forall x | 0 <= x < n
      ensures t[x] == u[x]
    {
      assert t[x] == t[..n][x];
    }
  }

  /** The first ':' at or after `from` is at `c`. */
  ghost predicate FirstColon(t: string, from: nat, c: nat) {
    from <= c < |t| && t[c] == ':' && forall x | from <= x < c :: t[x] != ':'
  }

  lemma ColonFind(t: string, from: nat, c: nat)
    ensures Find(t, ":", from) == Some(c) <==> FirstColon(t, from, c)
  {
    FindIsFirst(t, ":", from);
    if FirstColon(t, from, c) {
      CharAt(t, c, ':');
      forall x | from <= x < c
        ensures !At(t, x, ":")
      {
        CharAt(t, x, ':');
      }
      FindIs(t, ":", from, c);
    } else if Find(t, ":", from) == Some(c) {
      CharAt(t, c, ':');
      forall x | from <= x < c
        ensures t[x] != ':'
      {
        CharAt(t, x, ':');
      }
    }
  }

  /** The places jsonExtractString passes: key, colon, opening quote. */
  ghost predicate Path(t: string, key: string, k: nat, c: nat, p: nat) {
    && Find(t, Quoted(key), 0) == Some(k) && At(t, k, Quoted(key))
    && FirstColon(t, k, c)
    && c < p < |t| && t[p] == '"' && forall x | c < x < p :: IsSpace(t[x])
  }

  lemma PathOf(t: string, key: string) returns (k: nat, c: nat, p: nat)
    requires ValueStart(t, key).Some?
    ensures Path(t, key, k, c, p) && ValueStart(t, key) == Some(p + 1)
  {
    k := Find(t, Quoted(key), 0).value;
    c := Find(t, ":", k).value;
    p := SkipSpaces(t, c + 1);
    FindIsFirst(t, Quoted(key), 0);
    ColonFind(t, k, c);
  }

  lemma PathIs(t: string, key: string, k: nat, c: nat, p: nat)
    requires Path(t, key, k, c, p)
    ensures ValueStart(t, key) == Some(p + 1)
  {
    hide Quoted, At;
    ColonFind(t, k, c);
    SkipSpacesIs(t, c + 1, p);
  }

  /** The opening quote lies inside the quoted key exactly for keys that straddle. */
  lemma KeyBeforeValue(t: string, key: string, k: nat, c: nat, p: nat)
    requires Path(t, key, k, c, p)
    ensures p < k + |key| + 1 <==> Straddles(key)
  {
    KeyChars(t, k, key);
    hide Quoted, At, Find;
    var j := Find(key, ":", 0);
    assert forall y | k + 1 <= y < k + 1 + |key| :: t[y] == key[y - k - 1];
    if j.Some? {
      ColonFind(key, 0, j.value);
      assert FirstColon(t, k, k + 1 + j.value);
      assert c == k + 1 + j.value;
      var q := SkipSpaces(key, j.value + 1);
      assert forall y | c < y < k + 1 + q :: IsSpace(t[y]);
      assert q < |key| ==> !IsSpace(t[k + 1 + q]);
      assert !IsSpace(t[p]);
    } else {
      NoColonInKey(key);
    }
  }

  lemma NoColonInKey(key: string)
    requires Find(key, ":", 0).None?
    ensures forall i | 0 <= i < |key| :: key[i] != ':'
  {
    FindIsFirst(key, ":", 0);
    forall i | 0 <= i < |key|
      ensures key[i] != ':'
    {
      CharAt(key, i, ':');
    }
  }

  lemma KeyChars(t: string, k: nat, key: string)
    requires At(t, k, Quoted(key))
    ensures t[k] == t[k + |key| + 1] == '"'
    ensures forall x | 0 <= x < |key| :: key[x] == t[k + 1 + x]
  {
    PieceAt(t, k, Quoted(key), 0);
    PieceAt(t, k, Quoted(key), |key| + 1);
    forall x | 0 <= x < |key|
      ensures key[x] == t[k + 1 + x]
    {
      PieceAt(t, k, Quoted(key), x + 1);
    }
  }

  lemma PieceAt(t: string, k: nat, q: string, x: nat)
    requires At(t, k, q) && x < |q|
    ensures k + x < |t| && t[k + x] == q[x]
  {
    assert t[k..k + |q|][x] == t[k + x];
  }

  lemma ReadEscape(t: string, i: nat, c: char)
    requires At(t, i, EscapeChar(c))
    ensures var n := i + |EscapeChar(c)|;
            && Unescaped(t, i, false) == Before(c, Unescaped(t, n, false))
            && ClosingQuote(t, i, false) == ClosingQuote(t, n, false)
  {
    var d := EscapeChar(c);
    assert t[i] == t[i..i + |d|][0] == d[0];
    assert |d| == 2 ==> t[i + 1] == t[i..i + |d|][1];
  }

  lemma {:induction false} EscapedReads(t: string, i: nat, v: string)
    requires At(t, i, EscapeJson(v) + "\"")
    ensures Unescaped(t, i, false) == Some(v)
    ensures ClosingQuote(t, i, false) == Some(i + |EscapeJson(v)|)
    decreases |v|
  {
    hide EscapeChar, EscapeJson, Unescaped, ClosingQuote, At;
    if v == "" {
      EmptyReads(t, i);
    } else {
      EscapedHead(t, i, v);
      ReadEscape(t, i, v[0]);
      EscapedReads(t, i + |EscapeChar(v[0])|, v[1..]);
      assert v == [v[0]] + v[1..];
    }
  }

  lemma EmptyReads(t: string, i: nat)
    requires At(t, i, EscapeJson("") + "\"")
    ensures EscapeJson("") == "" && i < |t|
    ensures Unescaped(t, i, false) == Some("") && ClosingQuote(t, i, false) == Some(i)
  {
    assert EscapeJson("") + "\"" == "\"";
    CharAt(t, i, '"');
  }

  lemma EscapedHead(t: string, i: nat, v: string)
    requires v != "" && At(t, i, EscapeJson(v) + "\"")
    ensures At(t, i, EscapeChar(v[0]))
    ensures At(t, i + |EscapeChar(v[0])|, EscapeJson(v[1..]) + "\"")
    ensures |EscapeJson(v)| == |EscapeChar(v[0])| + |EscapeJson(v[1..])|
  {
    hide EscapeChar, At;
    var d, r := EscapeChar(v[0]), EscapeJson(v[1..]);
    assert EscapeJson(v) == d + r;
    hide EscapeJson;
    Concat3(d, r, "\"");
    AtConcat(t, i, d, r + "\"");
  }

  /** A body that reads has a closing quote, and the other way round. */
  lemma {:induction false} ReadsIffCloses(t: string, i: nat, esc: bool)
    requires i <= |t|
    ensures Unescaped(t, i, esc).Some? <==> ClosingQuote(t, i, esc).Some?
    decreases |t| - i
  {
    if i < |t| {
      ReadsIffCloses(t, i + 1, false);
      ReadsIffCloses(t, i + 1, true);
    }
  }

  /** Where extraction succeeds, replacement rewrites exactly the body extraction reads. */
  lemma ReplacedBody(t: string, key: string, k: nat, c: nat, p: nat)
    requires Path(t, key, k, c, p) && Extract(t, key).Some?
    ensures ClosingQuote(t, p + 1, false).Some?
    ensures StringSpan(t, key) == Some((p + 1, ClosingQuote(t, p + 1, false).value))
  {
    PathIs(t, key, k, c, p);
    ReadsIffCloses(t, p + 1, false);
    ColonFind(t, k, c);
    QuoteFind(t, c, p);
    hide Find, Unescaped, ClosingQuote;
  }

  lemma QuoteFind(t: string, c: nat, p: nat)
    requires c < p < |t| && t[p] == '"' && t[c] != '"' && forall x | c < x < p :: IsSpace(t[x])
    ensures Find(t, "\"", c) == Some(p)
  {
    CharAt(t, p, '"');
    forall x | c <= x < p
      ensures !At(t, x, "\"")
    {
      CharAt(t, x, '"');
    }
    FindIs(t, "\"", c, p);
  }

  /** The texts before and after a replacement agree up to the opening quote, so the path through
      them is the same. */
  lemma PathKept(t: string, u: string, key: string, k: nat, c: nat, p: nat)
    requires Path(t, key, k, c, p) && k + |key| + 2 <= p + 1
    requires p < |u| && u[..p + 1] == t[..p + 1]
    ensures Path(u, key, k, c, p)
  {
    CommonCharsFrom(t, u, p + 1);
    FindCommon(t, u, Quoted(key), 0, p + 1);
    FindIsFirst(u, Quoted(key), 0);
  }

  /** Replacing a key's value and extracting it again gives exactly the new value, a second
      replacement makes the first one unseen, and nothing outside the value changes. */
  lemma ReplaceThenExtract(t: string, key: string, v: string, w: string)
    requires Extract(t, key).Some? && !Straddles(key)
    ensures var u := ReplaceStringText(t, key, v);
            && Extract(u, key) == Some(v)
            && ReplaceStringText(u, key, w) == ReplaceStringText(t, key, w)
    ensures StringSpan(t, key).Some? &&
            var (b, e) := StringSpan(t, key).value;
            ReplaceStringText(t, key, v) == t[..b] + EscapeJson(v) + t[e..]
  {
    var k, c, p := PathOf(t, key);
    hide StringSpan, Path, Extract, Straddles, EscapeJson, Quoted, Find, ValueStart, At, ClosingQuote;
    SpanOfRead(t, key, k, c, p);
    SpanReplaced(t, key, v, w, k, c, p, StringSpan(t, key).value.1);
  }

  lemma SpanReplaced(t: string, key: string, v: string, w: string, k: nat, c: nat, p: nat, e: nat)
    requires Path(t, key, k, c, p) && k + |key| + 2 <= p + 1 && p < |t|
    requires StringSpan(t, key) == Some((p + 1, e)) && p < e < |t| && t[e] == '"'
    ensures var u := ReplaceStringText(t, key, v);
            && u == t[..p + 1] + EscapeJson(v) + t[e..]
            && Extract(u, key) == Some(v)
            && ReplaceStringText(u, key, w) == ReplaceStringText(t, key, w)
  {
    hide StringSpan, Path, Extract, EscapeJson, Quoted, Find, At, ClosingQuote;
    var u, s := ReplaceStringText(t, key, v), EscapeJson(v);
    Written(t, p + 1, e, s, EscapeJson(w));
    PathKept(t, u, key, k, c, p);
    SpanOfWritten(u, key, k, c, p, v);
  }

  lemma SpanOfRead(t: string, key: string, k: nat, c: nat, p: nat)
    requires Path(t, key, k, c, p) && Extract(t, key).Some? && !Straddles(key)
    ensures StringSpan(t, key).Some? && StringSpan(t, key).value.0 == p + 1
    ensures p < StringSpan(t, key).value.1 && t[StringSpan(t, key).value.1] == '"'
    ensures k + |key| + 2 <= p + 1 && p < |t|
  {
    KeyBeforeValue(t, key, k, c, p);
    hide Extract, Straddles, StringSpan, Quoted, Find, At, ClosingQuote;
    ReplacedBody(t, key, k, c, p);
  }

  lemma Written(t: string, b: nat, e: nat, s: string, r: string)
    requires b <= e < |t| && t[e] == '"'
    ensures var u := ReplaceSpan(t, b, e, s);
            && u == t[..b] + s + t[e..]
            && u[..b] == t[..b] && At(u, b, s + "\"")
            && ReplaceSpan(u, b, b + |s|, r) == ReplaceSpan(t, b, e, r)
  {
    var u := t[..b] + s + t[e..];
    assert u[..b] == t[..b] && u[b + |s|..] == t[e..];
    assert u[b..b + |s| + 1] == s + "\"";
  }

  lemma SpanOfWritten(u: string, key: string, k: nat, c: nat, p: nat, v: string)
    requires Path(u, key, k, c, p) && At(u, p + 1, EscapeJson(v) + "\"")
    ensures Extract(u, key) == Some(v)
    ensures StringSpan(u, key) == Some((p + 1, p + 1 + |EscapeJson(v)|))
  {
    hide StringSpan, Path, EscapeJson, Unescaped, ClosingQuote, At;
    EscapedReads(u, p + 1, v);
    PathIs(u, key, k, c, p);
    ReplacedBody(u, key, k, c, p);
  }

  // ---------- exactly the keys for which the law holds ----------

  function Xs(n: nat): string {
    seq(n, i => 'x')
  }

  /** Reading past a quote at `m` either stops by then or puts a quote into the value. */
  lemma {:induction false} ReadsToQuote(t: string, i: nat, esc: bool, m: nat)
    requires i <= m < |t| && t[m] == '"' && Unescaped(t, i, esc).Some?
    ensures var r := Unescaped(t, i, esc).value; |r| <= m - i || '"' in r
    decreases m - i
  {
    if i < m {
      if esc {
        ReadsToQuote(t, i + 1, false, m);
      } else if t[i] == '\\' {
        ReadsToQuote(t, i + 1, true, m);
      } else if t[i] != '"' {
        ReadsToQuote(t, i + 1, false, m);
      }
    }
  }

  /** Of a key that straddles, no text yields a value longer than the key without a quote in it. */
  lemma StraddlingValue(t: string, key: string)
    requires Straddles(key) && Extract(t, key).Some?
    ensures Extract(t, key) != Some(Xs(|key| + 1))
  {
    hide Path, Find, At, Quoted, Straddles, ValueStart, Xs, Unescaped;
    var k, c, p := PathOf(t, key);
    PathQuoted(t, key, k, c, p);
    KeyBeforeValue(t, key, k, c, p);
    KeyChars(t, k, key);
    ReadsToQuote(t, p + 1, false, k + |key| + 1);
    NoQuoteInXs(|key| + 1);
  }

  lemma PathQuoted(t: string, key: string, k: nat, c: nat, p: nat)
    requires Path(t, key, k, c, p)
    ensures At(t, k, Quoted(key)) && k < p < |t|
    ensures k + |key| + 2 <= |t|
  {
    hide Find;
  }

  lemma NoQuoteInXs(n: nat)
    ensures |Xs(n)| == n && '"' !in Xs(n)
  {
  }

  lemma {:induction false} ReadsBeforeTwoQuotes(t: string, i: nat, esc: bool)
    requires |t| >= 2 && t[|t| - 2] == t[|t| - 1] == '"' && i <= |t| - 2
    ensures Unescaped(t, i, esc).Some?
    decreases |t| - i
  {
    if i == |t| - 2 {
      assert Unescaped(t, i + 1, false) == Some("");
    } else {
      ReadsBeforeTwoQuotes(t, i + 1, false);
      ReadsBeforeTwoQuotes(t, i + 1, true);
    }
  }

  /** A text that begins with a quoted key has its first match at once. */
  lemma KeyAtFront(key: string, tail: string)
    ensures Find(Quoted(key) + tail, Quoted(key), 0) == Some(0) && At(Quoted(key) + tail, 0, Quoted(key))
  {
    var t := Quoted(key) + tail;
    assert At(t, 0, Quoted(key));
    hide Quoted;
    FindIs(t, Quoted(key), 0, 0);
  }

  /** In such a text, a straddling key gives a path that ends inside the key. */
  lemma PathInKey(key: string, t: string) returns (q: nat)
    requires Straddles(key) && Find(t, Quoted(key), 0) == Some(0) && At(t, 0, Quoted(key))
    requires |t| == |key| + 3
    ensures q < |key| && ValueStart(t, key) == Some(q + 2)
  {
    KeyChars(t, 0, key);
    hide Quoted, Find, At, ValueStart;
    var j := Find(key, ":", 0).value;
    q := SkipSpaces(key, j + 1);
    ColonFind(key, 0, j);
    ShiftedPath(key, t, j, q);
    PathIs(t, key, 0, j + 1, q + 1);
  }

  lemma ShiftedPath(key: string, t: string, j: nat, q: nat)
    requires |t| == |key| + 3 && t[0] == '"' && forall x | 0 <= x < |key| :: key[x] == t[0 + 1 + x]
    requires FirstColon(key, 0, j) && j < q < |key| && key[q] == '"' && forall x | j < x < q :: IsSpace(key[x])
    ensures FirstColon(t, 0, j + 1)
    ensures t[q + 1] == '"' && forall x | j + 1 < x < q + 1 :: IsSpace(t[x])
  {
    hide IsSpace;
    assert forall y | 1 <= y < 1 + |key| :: t[y] == key[y - 1];
  }

  /** A text on which a straddling key can be read. */
  lemma StraddlingText(key: string)
    requires Straddles(key)
    ensures Extract(Quoted(key) + "\"", key).Some?
  {
    var t := Quoted(key) + "\"";
    assert |t| == |key| + 3 && t[|t| - 2] == t[|t| - 1] == '"';
    hide Quoted, Find, At, ValueStart, Straddles, Unescaped;
    KeyAtFront(key, "\"");
    var q := PathInKey(key, t);
    ReadsBeforeTwoQuotes(t, q + 2, false);
  }

  /** The keys for which replacing and extracting agree on every text and value. */
  ghost predicate ReplacementVisible(key: string) {
    forall t: string, v: string | Extract(t, key).Some? :: Extract(ReplaceStringText(t, key, v), key) == Some(v)
  }

  /** They are exactly the keys that do not straddle, which a caller can check beforehand. */
  lemma VisibleExactly(key: string)
    ensures ReplacementVisible(key) <==> !Straddles(key)
  {
    hide Extract, Straddles;
    if Straddles(key) {
      var t, v := Quoted(key) + "\"", Xs(|key| + 1);
      StraddlingText(key);
      if Extract(ReplaceStringText(t, key, v), key).Some? {
        StraddlingValue(ReplaceStringText(t, key, v), key);
      }
    } else {
      forall t: string, v: string | Extract(t, key).Some?
        ensures Extract(ReplaceStringText(t, key, v), key) == Some(v)
      {
        ReplaceThenExtract(t, key, v, v);
      }
    }
  }
}
