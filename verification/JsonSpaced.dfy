/** The text edits of tools/login.cpp on any text, with white space wherever JSON allows it: what stands
    before and behind the place that is edited stays as it is. */
module JsonSpaced {
  import opened Wrappers
  import opened Text
  import opened JsonTree
  import opened JsonEdit
  import opened JsonRefine
  import opened JsonTail

  /** `t` is `pre`, then the quoted key for the first time, then its colon with nothing like a colon in
      between, then `rest`. */
  ghost predicate Keyed(t: string, pre: string, key: string, gap: string, rest: string) {
    && t == pre + (Quoted(key) + (gap + (":" + rest)))
    && Free(t, 0, |pre|, Quoted(key)) && ':' !in key && ':' !in gap
  }

  /** Where the edits find key and colon, and what stands at those places. */
  lemma KeyedAt(t: string, pre: string, key: string, gap: string, rest: string)
    requires Keyed(t, pre, key, gap, rest)
    ensures var c := |pre| + |key| + 2 + |gap|;
            && Find(t, Quoted(key), 0) == Some(|pre|) && Find(t, ":", |pre|) == Some(c)
            && c < |t| && t[..|pre|] == pre && t[c] == ':' && t[c + 1..] == rest
            && t[..c + 1] == pre + (Quoted(key) + (gap + ":"))
  {
    hide Find, Quoted, At;
    var q := Quoted(key) + gap;
    Regrouped(t, pre, Quoted(key), gap, rest);
    Pieces(t, pre, q, rest);
    hide *;
    QuotedLength(key);
    KeyAt(t, pre, key, gap);
    NoColonIn(key, gap);
    ColonAt(t, |pre|, |pre| + |q|, q);
  }

  lemma Regrouped(t: string, pre: string, k: string, gap: string, rest: string)
    requires t == pre + (k + (gap + (":" + rest)))
    ensures t == pre + ((k + gap) + (":" + rest)) && pre + ((k + gap) + ":") == pre + (k + (gap + ":"))
  {
    Concat3(k, gap, ":" + rest);
    Concat3(k, gap, ":");
  }

  lemma KeyAt(t: string, pre: string, key: string, gap: string)
    requires At(t, |pre|, Quoted(key) + gap) && Free(t, 0, |pre|, Quoted(key))
    ensures Find(t, Quoted(key), 0) == Some(|pre|)
  {
    hide Find, Quoted, At;
    AtConcat(t, |pre|, Quoted(key), gap);
    FindIs(t, Quoted(key), 0, |pre|);
  }

  lemma NoColonIn(key: string, gap: string)
    requires ':' !in key && ':' !in gap
    ensures ':' !in Quoted(key) + gap
  {
  }

  lemma ColonAt(t: string, k: nat, c: nat, q: string)
    requires c == k + |q| < |t| && t[c] == ':' && ':' !in q && forall p | k <= p < c :: t[p] == q[p - k]
    ensures Find(t, ":", k) == Some(c)
  {
    hide Find;
    forall p | k <= p < c
      ensures !At(t, p, ":")
    {
      CharAt(t, p, ':');
      assert q[p - k] in q;
    }
    CharAt(t, c, ':');
    FindIs(t, ":", k, c);
  }

  lemma Pieces(t: string, pre: string, q: string, rest: string)
    requires t == pre + (q + (":" + rest))
    ensures var c := |pre| + |q|;
            && c < |t| && t[c] == ':' && t[..|pre|] == pre && At(t, |pre|, q) && t[c + 1..] == rest
            && t[..c + 1] == pre + (q + ":") && forall p | |pre| <= p < c :: t[p] == q[p - |pre|]
  {
  }

  // ---------- integers ----------

  /** replaceJsonIntValue puts the number where, behind the spaces after the colon, minus signs and
      digits stand, be there any or none. */
  lemma IntReplacedIn(t: string, pre: string, key: string, gap: string, sp: string, ds: string, tail: string, n: int)
    requires Keyed(t, pre, key, gap, sp + (ds + tail)) && Spaces(sp)
    requires forall i | 0 <= i < |ds| :: ds[i] == '-' || IsDigit(ds[i])
    requires tail != "" ==> tail[0] != '-' && !IsDigit(tail[0]) && (ds == "" ==> !IsSpace(tail[0]))
    ensures ReplaceIntText(t, key, n) == pre + (Quoted(key) + (gap + ":")) + sp + Decimal(n) + tail
  {
    hide *;
    var c := |pre| + |key| + 2 + |gap|;
    KeyedAt(t, pre, key, gap, sp + (ds + tail));
    var p := c + 1 + |sp|;
    NumberBehind(t, c + 1, sp, ds, tail);
    NumberSpan(t, key, |pre|, c, p, p + |ds|);
    Replaced(t, c + 1, p, p + |ds|, sp, Decimal(n));
    IntSpanReplaced(t, key, p, p + |ds|, n);
    PrintedNumber(Decimal(n));
  }

  lemma NumberBehind(t: string, i: nat, sp: string, ds: string, tail: string)
    requires i <= |t| && t[i..] == sp + (ds + tail) && Spaces(sp)
    requires forall i | 0 <= i < |ds| :: ds[i] == '-' || IsDigit(ds[i])
    requires tail != "" ==> tail[0] != '-' && !IsDigit(tail[0]) && (ds == "" ==> !IsSpace(tail[0]))
    ensures var p := i + |sp|;
            && p + |ds| <= |t| && At(t, i, sp) && t[p + |ds|..] == tail
            && SpaceSpan(t, i, p) && DigitSpan(t, p, p + |ds|)
  {
    hide IsSpace, IsDigit;
    ThreeParts(t, i, sp, ds, tail);
    var p := i + |sp|;
    assert p + |ds| < |t| ==> t[p + |ds|] == t[p + |ds|..][0];
    SpaceBits();
  }

  lemma SpaceBits()
    ensures forall c: char :: c == '-' || IsDigit(c) ==> !IsSpace(c)
  {
  }

  /** Only spaces from i on, and none at p. */
  predicate SpaceSpan(t: string, i: nat, p: nat)
    requires i <= p <= |t|
  {
    (forall x | i <= x < p :: IsSpace(t[x])) && (p < |t| ==> !IsSpace(t[p]))
  }

  predicate DigitSpan(t: string, p: nat, e: nat)
    requires p <= e <= |t|
  {
    (forall x | p <= x < e :: t[x] == '-' || IsDigit(t[x])) && (e < |t| ==> t[e] != '-' && !IsDigit(t[e]))
  }

  lemma NumberSpan(t: string, key: string, k: nat, c: nat, p: nat, e: nat)
    requires Find(t, Quoted(key), 0) == Some(k) && Find(t, ":", k) == Some(c) && c < p <= e <= |t|
    requires SpaceSpan(t, c + 1, p) && DigitSpan(t, p, e)
    ensures IntSpan(t, key) == Some((p, e))
  {
    hide Find, SkipSpaces, IntEnd;
    SkipSpacesIs(t, c + 1, p);
    IntEndIs(t, p, e);
  }

  lemma Replaced(t: string, i: nat, p: nat, e: nat, sp: string, s: string)
    requires i <= p <= e <= |t| && At(t, i, sp) && p == i + |sp|
    ensures t[..p] + s + t[e..] == t[..i] + sp + s + t[e..]
  {
    assert t[..p] == t[..i] + t[i..p];
  }

  lemma ThreeParts(t: string, i: nat, a: string, b: string, c: string)
    requires i <= |t| && t[i..] == a + (b + c)
    ensures i + |a| + |b| + |c| == |t| && t[i + |a| + |b|..] == c
    ensures forall p | i <= p < i + |a| :: t[p] == a[p - i]
    ensures forall p | i + |a| <= p < i + |a| + |b| :: t[p] == b[p - i - |a|]
    ensures At(t, i, a) && At(t, i + |a|, b)
  {
    var r := t[i..];
    assert |r| == |t| - i;
    assert t[i..i + |a|] == r[..|a|] == a;
    assert t[i + |a|..i + |a| + |b|] == r[|a|..|a| + |b|] == b;
    assert t[i + |a| + |b|..] == r[|a| + |b|..] == c;
    assert forall p | i <= p < |t| :: t[p] == r[p - i];
  }

  lemma {:induction false} IntEndIs(t: string, i: nat, e: nat)
    requires i <= e <= |t| && (forall x | i <= x < e :: t[x] == '-' || IsDigit(t[x]))
    requires e < |t| ==> t[e] != '-' && !IsDigit(t[e])
    ensures IntEnd(t, i) == e
    decreases e - i
  {
    if i < e {
      IntEndIs(t, i + 1, e);
    }
  }

  // ---------- strings ----------

  /** replaceJsonStringValue puts the escaped value between the next two quotes that are not escaped. */
  lemma StringReplacedIn(t: string, pre: string, key: string, gap: string, sp: string, body: string, tail: string,
                         value: string)
    requires Keyed(t, pre, key, gap, sp + ("\"" + (body + ("\"" + tail)))) && '"' !in sp && Escaped(body)
    ensures ReplaceStringText(t, key, value) ==
            pre + (Quoted(key) + (gap + ":")) + sp + ("\"" + (EscapeJson(value) + ("\"" + tail)))
  {
    hide Find, EscapeJson, Keyed, Escaped, ClosingQuote, Quoted, StringSpan;
    var c := |pre| + |key| + 2 + |gap|;
    KeyedAt(t, pre, key, gap, sp + ("\"" + (body + ("\"" + tail))));
    BodyBehind(t, c + 1, sp, body, tail);
    var b := c + 2 + |sp|;
    BodySpan(t, key, |pre|, c, sp, body);
    BodyReplaced(t, key, b, b + |body|, value);
    Rejoined(t[..c + 1], sp, EscapeJson(value), tail);
  }

  lemma Rejoined(a: string, sp: string, s: string, tail: string)
    ensures a + sp + "\"" + s + ("\"" + tail) == a + sp + ("\"" + (s + ("\"" + tail)))
  {
    Concat3(a + sp, "\"", s + ("\"" + tail));
    Concat3(a + sp + "\"", s, "\"" + tail);
  }

  lemma BodyBehind(t: string, i: nat, sp: string, body: string, tail: string)
    requires i <= |t| && t[i..] == sp + ("\"" + (body + ("\"" + tail)))
    ensures var b := i + |sp| + 1;
            && b + |body| < |t| && t[b - 1] == '"' && At(t, i, sp) && At(t, b, body + "\"")
            && t[..b] == t[..i] + sp + "\"" && t[b + |body|..] == "\"" + tail
  {
    ThreeParts(t, i, sp, "\"", body + ("\"" + tail));
    var b := i + |sp| + 1;
    ThreeParts(t, b, body, "\"", tail);
    AtConcat(t, b, body, "\"");
    assert t[..b] == t[..i] + t[i..i + |sp|] + [t[b - 1]];
    assert t[b + |body|..] == [t[b + |body|]] + t[b + |body| + 1..];
  }

  lemma BodySpan(t: string, key: string, k: nat, c: nat, sp: string, body: string)
    requires Find(t, Quoted(key), 0) == Some(k) && Find(t, ":", k) == Some(c) && c < |t| && '"' !in sp && Escaped(body)
    requires At(t, c + 1, sp) && c + 2 + |sp| + |body| < |t| && t[c + 1 + |sp|] == '"'
    requires At(t, c + 2 + |sp|, body + "\"") && t[c] == ':'
    ensures StringSpan(t, key) == Some((c + 2 + |sp|, c + 2 + |sp| + |body|))
  {
    hide *;
    QuoteFound(t, c, sp);
    ClosingQuoteOf(t, c + 2 + |sp|, body);
    SpanFound(t, key, k, c, c + 1 + |sp|, c + 2 + |sp| + |body|);
  }

  lemma SpanFound(t: string, key: string, k: nat, c: nat, q: nat, e: nat)
    requires Find(t, Quoted(key), 0) == Some(k) && Find(t, ":", k) == Some(c) && Find(t, "\"", c) == Some(q)
    requires q + 1 <= |t| && ClosingQuote(t, q + 1, false) == Some(e)
    ensures StringSpan(t, key).Some? && StringSpan(t, key).value.0 == q + 1 && StringSpan(t, key).value.1 == e
  {
    hide Find, ClosingQuote, Quoted, At, Free, IsSpace, IsDigit, Spaces, Escaped;
    SpanChain(t, key, Some(k), Some(c), Some(q), Some(e));
  }

  /** The chain of searches behind a string's span. */
  lemma SpanChain(t: string, key: string, k: Option<nat>, c: Option<nat>, q: Option<nat>, e: Option<nat>)
    requires k == Find(t, Quoted(key), 0) && k.Some? && c == Find(t, ":", k.value) && c.Some?
    requires q == Find(t, "\"", c.value) && q.Some? && q.value + 1 <= |t|
    requires e == ClosingQuote(t, q.value + 1, false) && e.Some?
    ensures StringSpan(t, key) == Some((q.value + 1, e.value))
  {
    hide Find, ClosingQuote, Quoted;
  }

  lemma QuoteFound(t: string, c: nat, sp: string)
    requires c < |t| && t[c] == ':' && At(t, c + 1, sp) && '"' !in sp && c + 1 + |sp| < |t| && t[c + 1 + |sp|] == '"'
    ensures Find(t, "\"", c) == Some(c + 1 + |sp|)
  {
    hide Find;
    var q := c + 1 + |sp|;
    assert t[c + 1..q] == sp;
    forall p | c <= p < q
      ensures !At(t, p, "\"")
    {
      if p > c {
        assert t[p] == t[c + 1..q][p - c - 1];
        assert sp[p - c - 1] in sp;
      }
      CharAt(t, p, '"');
    }
    CharAt(t, q, '"');
    FindIs(t, "\"", c, q);
  }

  lemma BodyReplaced(t: string, key: string, b: nat, e: nat, value: string)
    requires b <= e < |t| && StringSpan(t, key) == Some((b, e))
    ensures ReplaceStringText(t, key, value) == t[..b] + EscapeJson(value) + t[e..]
  {
    hide StringSpan, EscapeJson;
  }

  // ---------- removing ----------

  predicate EndsSpaced(a: string) {
    a != "" && IsSpace(a[|a| - 1])
  }

  /** removeJsonKeyValue takes out key, colon and value with the spaces around the value, and one comma:
      the one behind it, or else, with the spaces before the key, the one before it. */
  lemma RemovedFrom(t: string, a: string, ws: string, key: string, gap: string, sp: string, v: Json, sp2: string,
                    tail: string)
    requires Keyed(t, a + ws, key, gap, sp + (Print(v) + (sp2 + tail))) && WellFormed(v)
    requires Spaces(ws) && !EndsSpaced(a) && Spaces(sp) && Spaces(sp2)
    requires tail != "" ==> tail[0] == ',' || tail[0] == '}'
    ensures RemoveText(t, key) == Joined(a, ws, tail)
  {
    hide *;
    var pre, p := a + ws, Print(v);
    assert |pre| == |a| + |ws|;
    var c := |pre| + |key| + 2 + |gap|;
    KeyedAt(t, pre, key, gap, sp + (p + (sp2 + tail)));
    ValueScanned(t, c + 1, sp, v, sp2, tail);
    var e := |t| - |tail|;
    BackTo(t, a, ws);
    Erased(t, key, |pre|, c, e, |a|);
    Leftover(t, a, ws, tail, e);
  }

  /** A text with a member taken out between `a`, spaces `ws` behind it, and `tail`: of the commas around
      the member one goes. */
  function Joined(a: string, ws: string, tail: string): string {
    if tail != "" && tail[0] == ',' then a + ws + tail[1..]
    else if a != "" && a[|a| - 1] == ',' then a[..|a| - 1] + tail
    else a + tail
  }

  function Cut(t: string, k: nat, e: nat, b: nat): string
    requires k <= |t| && e <= |t| && b <= |t|
  {
    if e < |t| && t[e] == ',' then t[..k] + t[e + 1..]
    else if b > 0 && t[b - 1] == ',' then t[..b - 1] + t[e..]
    else t[..b] + t[e..]
  }

  lemma ValueScanned(t: string, i: nat, sp: string, v: Json, sp2: string, tail: string)
    requires i <= |t| && t[i..] == sp + (Print(v) + (sp2 + tail)) && WellFormed(v) && Spaces(sp) && Spaces(sp2)
    requires tail != "" ==> tail[0] == ',' || tail[0] == '}'
    ensures i + |tail| <= |t| && t[|t| - |tail|..] == tail
    ensures ValueEnd(t, i, false, false, 0, 0) == |t| - |tail|
  {
    hide Print, WellFormed, ValueEnd, Spaces;
    var p := Print(v);
    ThreeParts(t, i, sp, p, sp2 + tail);
    ThreeParts(t, i + |sp| + |p|, sp2, tail, "");
    ScanSpaces(t, i, sp);
    ScanValue(t, i + |sp|, v, 0, 0);
    ScanSpaces(t, i + |sp| + |p|, sp2);
    assert tail + "" == tail;
    ScanStops(t, |t| - |tail|);
  }

  /** The span erased, from the first occurrence, its colon, the end of the value and what is left of
      the text in front once spaces are stepped over. */
  lemma Erased(t: string, key: string, k: nat, c: nat, e: nat, b: nat)
    requires Find(t, Quoted(key), 0) == Some(k) && Find(t, ":", k) == Some(c) && c < |t| && k <= e <= |t|
    requires ValueEnd(t, c + 1, false, false, 0, 0) == e && BackOverSpaces(t, k) == b && b <= k
    ensures RemoveText(t, key) == Cut(t, k, e, b)
  {
    hide Find, ValueEnd, BackOverSpaces, RemoveText, RemoveSpan;
    SpanErased(t, key, k, c, e, b);
    if e < |t| && t[e] == ',' {
      RemovedSpan(t, key, k, e + 1);
    } else {
      RemovedSpan(t, key, if b > 0 && t[b - 1] == ',' then b - 1 else b, e);
    }
  }

  lemma SpanErased(t: string, key: string, k: nat, c: nat, e: nat, b: nat)
    requires Find(t, Quoted(key), 0) == Some(k) && Find(t, ":", k) == Some(c) && c < |t| && k <= e <= |t|
    requires ValueEnd(t, c + 1, false, false, 0, 0) == e && BackOverSpaces(t, k) == b && b <= k
    ensures RemoveSpan(t, key) == Some(if e < |t| && t[e] == ',' then (k, e + 1)
                                       else (if b > 0 && t[b - 1] == ',' then b - 1 else b, e))
  {
    hide Find, ValueEnd, BackOverSpaces;
  }

  lemma Leftover(t: string, a: string, ws: string, tail: string, e: nat)
    requires |a| + |ws| <= e == |t| - |tail| && t[..|a| + |ws|] == a + ws && t[e..] == tail
    ensures Cut(t, |a| + |ws|, e, |a|) == Joined(a, ws, tail)
  {
    assert t[..|a|] == (a + ws)[..|a|];
    assert a != "" ==> t[..|a|][|a| - 1] == t[|a| - 1] && t[..|a| - 1] == t[..|a|][..|a| - 1];
    assert tail != "" ==> t[e..][0] == t[e] && t[e..][1..] == t[e + 1..];
  }

  lemma ScanSpaces(t: string, i: nat, sp: string)
    requires At(t, i, sp) && Spaces(sp)
    ensures ValueEnd(t, i, false, false, 0, 0) == ValueEnd(t, i + |sp|, false, false, 0, 0)
  {
    ScanInert(t, i, sp, 0, 0);
  }

  lemma ScanStops(t: string, e: nat)
    requires e <= |t| && (e < |t| ==> t[e] == ',' || t[e] == '}')
    ensures ValueEnd(t, e, false, false, 0, 0) == e
  {
  }

  lemma BackTo(t: string, a: string, ws: string)
    requires |a| + |ws| <= |t| && t[..|a| + |ws|] == a + ws && Spaces(ws) && !EndsSpaced(a)
    ensures BackOverSpaces(t, |a| + |ws|) == |a|
  {
    hide IsSpace, BackOverSpaces;
    Beginning(t, a + ws);
    InBoth(a, ws);
    BackOver(t, |a|, |a| + |ws|);
  }

  lemma Beginning(t: string, pre: string)
    requires |pre| <= |t| && t[..|pre|] == pre
    ensures forall p | 0 <= p < |pre| :: t[p] == pre[p]
  {
    forall p | 0 <= p < |pre|
      ensures t[p] == pre[p]
    {
      assert t[..|pre|][p] == t[p];
    }
  }

  lemma InBoth(a: string, b: string)
    ensures forall p | 0 <= p < |a| :: (a + b)[p] == a[p]
    ensures forall p | |a| <= p < |a| + |b| :: (a + b)[p] == b[p - |a|]
  {
  }

  lemma {:induction false} BackOver(t: string, b: nat, i: nat)
    requires b <= i <= |t| && (forall p | b <= p < i :: IsSpace(t[p])) && (b > 0 ==> !IsSpace(t[b - 1]))
    ensures BackOverSpaces(t, i) == b
    decreases i - b
  {
    if b < i {
      BackOver(t, b, i - 1);
    }
  }

  // ---------- adding ----------

  /** addJsonRawBeforeKey puts the member and a comma before the first quoted anchor. */
  lemma AddedBefore(t: string, pre: string, before: string, rest: string, key: string, raw: string)
    requires t == pre + (Quoted(before) + rest) && Free(t, 0, |pre|, Quoted(before)) && !HasKeyText(t, key)
    ensures AddRawText(t, before, key, raw) == pre + (Quoted(key) + ":" + raw + ",") + (Quoted(before) + rest)
  {
    hide Find;
    AtConcat(t, |pre|, Quoted(before), rest);
    assert t[|pre|..] == Quoted(before) + rest && t[..|pre|] == pre;
    assert t[|pre|..|pre| + |Quoted(before)|] == Quoted(before);
    FindIs(t, Quoted(before), 0, |pre|);
  }

  /** Without the anchor it goes before the last closing brace, behind a comma unless the object is
      empty but for spaces; and without a brace nothing changes. */
  lemma AddedAtBrace(t: string, a: string, ws: string, tail: string, before: string, key: string, raw: string)
    requires t == a + ws + ("}" + tail) && '}' !in tail && Spaces(ws) && !EndsSpaced(a)
    requires !HasKeyText(t, before) && !HasKeyText(t, key)
    ensures AddRawText(t, before, key, raw) ==
            a + ws + ((if a != "" && a[|a| - 1] == '{' then "" else ",") + (Quoted(key) + ":" + raw)) + ("}" + tail)
  {
    hide Find, FindLast, BackOverSpaces;
    var brace := |a| + |ws|;
    assert t[brace] == '}' && t[..brace] == a + ws && t[brace..] == "}" + tail;
    assert forall p | brace < p < |t| :: t[p] == tail[p - brace - 1];
    assert FindLast(t, '}') == Some(brace);
    BackTo(t, a, ws);
    assert a != "" ==> t[|a| - 1] == a[|a| - 1];
  }

  lemma NothingAddedTo(t: string, before: string, key: string, raw: string)
    requires HasKeyText(t, key) || (!HasKeyText(t, before) && '}' !in t)
    ensures AddRawText(t, before, key, raw) == t
  {
    hide Find;
  }
}
