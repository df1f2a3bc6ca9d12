/** Where a quoted key can occur in the compact text of a tree. A key without quotes, backslashes or
    punctuation occurs exactly where a string token of the tree ends in it right after a quote,
    so textual search can be decided on the tree. */
module JsonLocate {
  import opened Wrappers
  import opened Text
  import opened JsonTree
  import JsonEdit
  import opened JsonRefine

  predicate Punctuation(c: char) {
    c == ',' || c == ':' || c == ']' || c == '}'
  }

  /** Keys like the ones login.cpp edits: not empty, no quote, backslash or punctuation. */
  predicate PlainKey(key: string) {
    key != "" && forall i | 0 <= i < |key| :: key[i] != '"' && key[i] != '\\' && !Punctuation(key[i])
  }

  /** The text of the token `"body"` ends in `"key"`. */
  predicate EndsQuoted(body: string, key: string) {
    body == key || (|body| > |key| && body[|body| - |key| - 1..] == "\"" + key)
  }

  /** No string or key anywhere in the value ends in the quoted key. */
  ghost predicate Clean(v: Json, key: string)
    decreases v, 0
  {
    match v
    case Str(body) => !EndsQuoted(body, key)
    case Arr(items) => CleanItems(items, key)
    case Obj(members) => CleanMembers(members, key)
    case _ => true
  }

  ghost predicate CleanItems(items: seq<Json>, key: string)
    decreases items, 0
  {
    items == [] || (Clean(items[0], key) && CleanItems(items[1..], key))
  }

  ghost predicate CleanMember(m: Member, key: string)
    decreases m, 1
  {
    !EndsQuoted(m.key, key) && Clean(m.value, key)
  }

  ghost predicate CleanMembers(ms: seq<Member>, key: string)
    decreases ms, 0
  {
    ms == [] || (CleanMember(ms[0], key) && CleanMembers(ms[1..], key))
  }

  // ---------- one string token ----------

  lemma {:induction false} NoQuoteAfter(body: string, key: string)
    requires Escaped(body) && |key| < |body| && body[..|key|] == key
    requires forall i | 0 <= i < |key| :: key[i] != '"' && key[i] != '\\'
    ensures body[|key|] != '"'
    decreases |key|
  {
    if key != "" {
      assert body[0] == key[0];
      assert body[1..][..|key| - 1] == key[1..];
      NoQuoteAfter(body[1..], key[1..]);
    }
  }

  lemma {:induction false} EscapedTail(body: string, m: nat)
    requires Escaped(body) && m < |body| && body[m] == '"'
    ensures Escaped(body[m + 1..])
    decreases |body|
  {
    if body[0] == '\\' {
      if m == 1 {
        assert body[m + 1..] == body[2..];
      } else {
        EscapedTail(body[2..], m - 2);
        assert body[2..][m - 1..] == body[m + 1..];
      }
    } else {
      EscapedTail(body[1..], m - 1);
      assert body[1..][m..] == body[m + 1..];
    }
  }

  /** The end of an escaped body and its closing quote: the quoted key matches from its start only
      when the whole of it is the key. */
  lemma MatchIsWhole(t: string, p: nat, u: string, key: string)
    requires Escaped(u) && PlainKey(key) && At(t, p + 1, u + "\"") && At(t, p, Quoted(key))
    ensures u == key
  {
    Concat3("\"", key, "\"");
    AtConcat(t, p, "\"", key + "\"");
    AtConcat(t, p + 1, key, "\"");
    AtConcat(t, p + 1, u, "\"");
    var common := if |key| < |u| then |key| else |u|;
    assert u[..common] == t[p + 1..p + 1 + |u|][..common] == t[p + 1..p + 1 + common];
    assert key[..common] == t[p + 1..p + 1 + |key|][..common];
    assert t[p + 1 + |key|] == t[p + 1 + |u|] == '"';
    forall x | p + 1 <= x < p + 1 + |key|
      ensures t[x] != '"'
    {
      assert t[x] == t[p + 1..p + 1 + |key|][x - p - 1] == key[x - p - 1];
    }
    if |key| < |u| {
      NoQuoteAfter(u, key);
      assert false;
    }
  }

  ghost predicate Follow(t: string, p: nat) {
    p < |t| ==> Punctuation(t[p])
  }

  lemma TokenMatch(t: string, i: nat, body: string, key: string, p: nat)
    requires Escaped(body) && PlainKey(key) && At(t, i, Quoted(body)) && Follow(t, i + |body| + 2)
    requires i <= p < i + |body| + 2 && At(t, p, Quoted(key))
    ensures EndsQuoted(body, key) && p + |key| == i + |body|
  {
    Concat3("\"", body, "\"");
    AtConcat(t, i, "\"", body + "\"");
    FirstIsQuote(t, p, key);
    hide Quoted, At, Escaped, PlainKey, Follow;
    if p == i {
      MatchIsWhole(t, p, body, key);
    } else if p < i + |body| + 1 {
      InnerMatch(t, i, body, key, p);
    } else {
      NoMatchAtClose(t, p, key);
    }
  }

  lemma NoMatchAtClose(t: string, p: nat, key: string)
    requires PlainKey(key) && Follow(t, p + 1)
    ensures !At(t, p, Quoted(key))
  {
    Concat3("\"", key, "\"");
    AtConcat(t, p, "\"", key + "\"");
    if p + 1 < |t| {
      NotAt(t, p + 1, key + "\"");
    }
  }

  lemma FirstIsQuote(t: string, p: nat, key: string)
    requires At(t, p, Quoted(key))
    ensures t[p] == '"'
  {
    Concat3("\"", key, "\"");
    AtConcat(t, p, "\"", key + "\"");
  }

  lemma InnerMatch(t: string, i: nat, body: string, key: string, p: nat)
    requires Escaped(body) && PlainKey(key) && At(t, i + 1, body + "\"")
    requires i < p < i + |body| + 1 && At(t, p, Quoted(key)) && t[p] == '"'
    ensures EndsQuoted(body, key) && p + |key| == i + |body|
  {
    hide Escaped, PlainKey, Quoted, At;
    var m := p - i - 1;
    QuoteInBody(t, i, body, p);
    EscapedTail(body, m);
    BodyBehind(t, i, body, m);
    MatchIsWhole(t, p, body[m + 1..], key);
    assert body[m..] == [body[m]] + body[m + 1..];
  }

  lemma QuoteInBody(t: string, i: nat, body: string, p: nat)
    requires At(t, i + 1, body + "\"") && i < p < i + |body| + 1 && t[p] == '"'
    ensures body[p - i - 1] == '"'
  {
    AtConcat(t, i + 1, body, "\"");
    assert body[p - i - 1] == t[i + 1..i + 1 + |body|][p - i - 1];
  }

  lemma BodyBehind(t: string, i: nat, body: string, m: nat)
    requires m < |body| && At(t, i + 1, body + "\"")
    ensures At(t, i + m + 2, body[m + 1..] + "\"")
  {
    DropFront(t, i + 1, body, m + 1);
  }

  lemma TokenEnds(t: string, i: nat, body: string, key: string)
    requires At(t, i, Quoted(body)) && EndsQuoted(body, key)
    ensures At(t, i + |body| - |key|, Quoted(key))
  {
    var n := |body| - |key|;
    assert Quoted(body) == Quoted(body)[..n] + Quoted(key) by {
      if n > 0 {
        assert body == body[..n - 1] + body[n - 1..];
      }
    }
    AtConcat(t, i, Quoted(body)[..n], Quoted(key));
  }

  lemma FreeToken(t: string, i: nat, body: string, key: string)
    requires Escaped(body) && PlainKey(key) && At(t, i, Quoted(body)) && Follow(t, i + |body| + 2)
    ensures Free(t, i, i + |body| + 2, Quoted(key)) <==> !EndsQuoted(body, key)
  {
    hide At, Escaped, PlainKey, Follow, Quoted;
    if EndsQuoted(body, key) {
      TokenEnds(t, i, body, key);
      assert |body| >= |key|;
    }
    forall p | i <= p < i + |body| + 2 && At(t, p, Quoted(key))
      ensures EndsQuoted(body, key)
    {
      TokenMatch(t, i, body, key, p);
    }
  }

  // ---------- values, item by item and member by member ----------

  lemma FreeNoQuote(t: string, i: nat, s: string, key: string)
    requires At(t, i, s) && '"' !in s
    ensures Free(t, i, i + |s|, Quoted(key))
  {
    forall p | i <= p < i + |s|
      ensures !At(t, p, Quoted(key))
    {
      assert t[p] == s[p - i];
      NotAt(t, p, Quoted(key));
    }
  }

  lemma NotAt(t: string, p: nat, s: string)
    requires p < |t| && s != "" && t[p] != s[0]
    ensures !At(t, p, s)
  {
  }

  lemma FreeJoin(t: string, lo: nat, mid: nat, hi: nat, s: string)
    requires lo <= mid <= hi
    ensures Free(t, lo, hi, s) <==> Free(t, lo, mid, s) && Free(t, mid, hi, s)
  {
  }

  lemma {:induction false} FreeValue(t: string, i: nat, v: Json, key: string)
    requires WellFormed(v) && PlainKey(key) && At(t, i, Print(v)) && Follow(t, i + |Print(v)|)
    ensures Free(t, i, i + |Print(v)|, Quoted(key)) <==> Clean(v, key)
    decreases v, 1
  {
    hide At, Free, PlainKey, Follow, Quoted;
    match v
    case Null => FreeNoQuote(t, i, "null", key);
    case Bool(b) => FreeNoQuote(t, i, Print(v), key);
    case Num(digits) =>
      assert forall c | c in digits :: NumberChar(c);
      FreeNoQuote(t, i, digits, key);
    case Str(body) => QuotedLength(body); FreeToken(t, i, body, key);
    case Arr(items) => FreeArray(t, i, items, key);
    case Obj(ms) => FreeObject(t, i, ms, key);
  }

  lemma FreeBrackets(t: string, i: nat, open: string, inner: string, close: string, key: string)
    requires |open| == |close| == 1 && '"' !in open && '"' !in close && At(t, i, open + inner + close)
    ensures Free(t, i, i + 2 + |inner|, Quoted(key)) <==> Free(t, i + 1, i + 1 + |inner|, Quoted(key))
  {
    AtConcat(t, i, open + inner, close);
    AtConcat(t, i, open, inner);
    FreeNoQuote(t, i, open, key);
    FreeNoQuote(t, i + 1 + |inner|, close, key);
  }

  lemma {:induction false} FreeArray(t: string, i: nat, items: seq<Json>, key: string)
    requires (forall v | v in items :: WellFormed(v)) && PlainKey(key) && At(t, i, Print(Arr(items)))
    ensures Free(t, i, i + |Print(Arr(items))|, Quoted(key)) <==> CleanItems(items, key)
    decreases items, 4
  {
    hide WellFormed, Clean, CleanItems, PlainKey;
    Brackets(t, i, "[", Items(items), "]");
    FreeBrackets(t, i, "[", Items(items), "]", key);
    FreeItems(t, i + 1, items, key);
  }

  lemma {:induction false} FreeItems(t: string, i: nat, items: seq<Json>, key: string)
    requires (forall v | v in items :: WellFormed(v)) && PlainKey(key) && At(t, i, Items(items))
    requires Follow(t, i + |Items(items)|)
    ensures Free(t, i, i + |Items(items)|, Quoted(key)) <==> CleanItems(items, key)
    decreases items, 3
  {
    hide WellFormed, Clean, PlainKey, Print, At, Quoted;
    if items != [] {
      AtConcat(t, i, Print(items[0]), ItemsTail(items[1..]));
      TailFollows(t, i + |Print(items[0])|, items[1..]);
      FreeValue(t, i, items[0], key);
      FreeItemsTail(t, i + |Print(items[0])|, items[1..], key);
    }
  }

  lemma TailFollows(t: string, i: nat, items: seq<Json>)
    requires At(t, i, ItemsTail(items)) && Follow(t, i + |ItemsTail(items)|)
    ensures Follow(t, i)
  {
    hide Print;
    if items != [] {
      AtConcat(t, i, "," + Print(items[0]), ItemsTail(items[1..]));
      AtConcat(t, i, ",", Print(items[0]));
      assert t[i] == ',';
    }
  }

  lemma {:induction false} FreeItemsTail(t: string, i: nat, items: seq<Json>, key: string)
    requires (forall v | v in items :: WellFormed(v)) && PlainKey(key) && At(t, i, ItemsTail(items))
    requires Follow(t, i + |ItemsTail(items)|)
    ensures Free(t, i, i + |ItemsTail(items)|, Quoted(key)) <==> CleanItems(items, key)
    decreases items, 0
  {
    hide WellFormed, Clean, PlainKey, Print, At, Quoted;
    if items != [] {
      AtConcat(t, i, "," + Print(items[0]), ItemsTail(items[1..]));
      AtConcat(t, i, ",", Print(items[0]));
      TailFollows(t, i + 1 + |Print(items[0])|, items[1..]);
      FreeNoQuote(t, i, ",", key);
      FreeValue(t, i + 1, items[0], key);
      FreeItemsTail(t, i + 1 + |Print(items[0])|, items[1..], key);
    }
  }

  lemma {:induction false} FreeObject(t: string, i: nat, ms: seq<Member>, key: string)
    requires WellFormedMembers(ms) && PlainKey(key) && At(t, i, Print(Obj(ms)))
    ensures Free(t, i, i + |Print(Obj(ms))|, Quoted(key)) <==> CleanMembers(ms, key)
    decreases ms, 4
  {
    hide WellFormed, WellFormedMembers, Clean, CleanMembers, PlainKey;
    Brackets(t, i, "{", Fields(ms), "}");
    FreeBrackets(t, i, "{", Fields(ms), "}", key);
    FreeFields(t, i + 1, ms, key);
  }

  lemma {:induction false} FreeFields(t: string, i: nat, ms: seq<Member>, key: string)
    requires WellFormedMembers(ms) && PlainKey(key) && At(t, i, Fields(ms)) && Follow(t, i + |Fields(ms)|)
    ensures Free(t, i, i + |Fields(ms)|, Quoted(key)) <==> CleanMembers(ms, key)
    decreases ms, 3
  {
    hide WellFormed, CleanMember, PlainKey, MemberText, At, Quoted;
    if ms != [] {
      AtConcat(t, i, MemberText(ms[0]), FieldsTail(ms[1..]));
      FieldsTailFollows(t, i + |MemberText(ms[0])|, ms[1..]);
      FreeField(t, i, ms[0], key);
      FreeFieldsTail(t, i + |MemberText(ms[0])|, ms[1..], key);
    }
  }

  lemma FieldsTailFollows(t: string, i: nat, ms: seq<Member>)
    requires At(t, i, FieldsTail(ms)) && Follow(t, i + |FieldsTail(ms)|)
    ensures Follow(t, i)
  {
    hide MemberText;
    if ms != [] {
      AtConcat(t, i, "," + MemberText(ms[0]), FieldsTail(ms[1..]));
      AtConcat(t, i, ",", MemberText(ms[0]));
      assert t[i] == ',';
    }
  }

  lemma {:induction false} FreeField(t: string, i: nat, m: Member, key: string)
    requires Escaped(m.key) && WellFormed(m.value) && PlainKey(key) && At(t, i, MemberText(m))
    requires Follow(t, i + |MemberText(m)|)
    ensures Free(t, i, i + |MemberText(m)|, Quoted(key)) <==> CleanMember(m, key)
    decreases m, 2
  {
    hide WellFormed, Escaped, Clean, EndsQuoted, PlainKey, Print;
    AtConcat(t, i, Quoted(m.key) + ":", Print(m.value));
    AtConcat(t, i, Quoted(m.key), ":");
    var c := i + |m.key| + 2;
    assert t[c] == ':';
    FreeToken(t, i, m.key, key);
    FreeNoQuote(t, c, ":", key);
    FreeValue(t, c + 1, m.value, key);
    FreeJoin(t, i, c, c + 1, Quoted(key));
    FreeJoin(t, i, c + 1, i + |MemberText(m)|, Quoted(key));
  }

  lemma {:induction false} FreeFieldsTail(t: string, i: nat, ms: seq<Member>, key: string)
    requires WellFormedMembers(ms) && PlainKey(key) && At(t, i, FieldsTail(ms))
    requires Follow(t, i + |FieldsTail(ms)|)
    ensures Free(t, i, i + |FieldsTail(ms)|, Quoted(key)) <==> CleanMembers(ms, key)
    decreases ms, 0
  {
    hide WellFormed, CleanMember, PlainKey, MemberText, At, Quoted;
    if ms != [] {
      AtConcat(t, i, "," + MemberText(ms[0]), FieldsTail(ms[1..]));
      AtConcat(t, i, ",", MemberText(ms[0]));
      FieldsTailFollows(t, i + 1 + |MemberText(ms[0])|, ms[1..]);
      FreeNoQuote(t, i, ",", key);
      FreeField(t, i + 1, ms[0], key);
      FreeFieldsTail(t, i + 1 + |MemberText(ms[0])|, ms[1..], key);
    }
  }

  // ---------- the whole object ----------

  lemma {:induction false} FreeLead(t: string, i: nat, ms: seq<Member>, key: string)
    requires WellFormedMembers(ms) && PlainKey(key) && At(t, i, Lead(ms))
    ensures Free(t, i, i + |Lead(ms)|, Quoted(key)) <==> CleanMembers(ms, key)
    decreases |ms|
  {
    hide WellFormed, CleanMember, PlainKey, MemberText, At, Quoted;
    if ms != [] {
      AtConcat(t, i, MemberText(ms[0]) + ",", Lead(ms[1..]));
      AtConcat(t, i, MemberText(ms[0]), ",");
      CommaFollows(t, i + |MemberText(ms[0])|);
      FreeField(t, i, ms[0], key);
      FreeNoQuote(t, i + |MemberText(ms[0])|, ",", key);
      FreeLead(t, i + |MemberText(ms[0])| + 1, ms[1..], key);
    }
  }

  lemma CommaFollows(t: string, i: nat)
    requires At(t, i, ",")
    ensures Follow(t, i)
  {
    assert t[i] == ',';
  }

  /** The first textual occurrence of the quoted key is the member's own key exactly when every
      member before it is clean. */
  lemma FirstOccurrence(ms: seq<Member>, i: nat, key: string)
    requires i < |ms| && ms[i].key == key && WellFormedMembers(ms) && PlainKey(key)
    ensures Locates(ms, i, key) <==> CleanMembers(ms[..i], key)
  {
    hide Print, WellFormed, CleanMembers, PlainKey, Find, Lead, Quoted, FieldsTail, MemberText;
    var t, off := Print(Obj(ms)), KeyOffset(ms, i);
    Layout(ms, i);
    AtConcat(t, off, Quoted(key), ":");
    AtPrefix(t, "{", Lead(ms[..i]));
    hide At;
    FreeNoQuote(t, 0, "{", key);
    FreeLead(t, 1, ms[..i], key);
    FreeJoin(t, 0, 1, off, Quoted(key));
    FindIsFirst(t, Quoted(key), 0);
    if Free(t, 0, off, Quoted(key)) {
      FindIs(t, Quoted(key), 0, off);
    }
  }

  lemma AtPrefix(t: string, a: string, b: string)
    requires |a| + |b| <= |t| && t[..|a| + |b|] == a + b
    ensures At(t, 0, a) && At(t, |a|, b)
  {
    AtConcat(t, 0, a, b);
  }

  /** jsonHasKey answers whether some member is not clean. */
  lemma AnyOccurrence(ms: seq<Member>, key: string)
    requires WellFormedMembers(ms) && PlainKey(key)
    ensures JsonEdit.HasKeyText(Print(Obj(ms)), key) <==> !CleanMembers(ms, key)
  {
    var t := Print(Obj(ms));
    assert At(t, 0, t);
    hide Print, WellFormed, CleanMembers, PlainKey, Find, At;
    FreeObject(t, 0, ms, key);
    FindIsFirst(t, Quoted(key), 0);
    if Free(t, 0, |t|, Quoted(key)) {
      NoMatchAtEnd(t, key);
      FindNone(t, Quoted(key), 0);
    }
  }

  lemma NoMatchAtEnd(t: string, key: string)
    ensures !At(t, |t|, Quoted(key))
  {
  }

  lemma {:induction false} CleanMembersAll(ms: seq<Member>, key: string)
    ensures CleanMembers(ms, key) <==> forall i | 0 <= i < |ms| :: CleanMember(ms[i], key)
  {
    hide CleanMember;
    if ms != [] {
      CleanMembersAll(ms[1..], key);
      assert forall i | 0 < i < |ms| :: ms[i] == ms[1..][i - 1];
    }
  }

  /** The first colon after a quoted key stands behind it. */
  lemma ColonBehind(t: string, key: string, k: nat, c: nat)
    requires PlainKey(key) && At(t, k, Quoted(key)) && k <= c < |t| && t[c] == ':'
    ensures k + |key| + 2 <= c
  {
    assert forall x | 0 <= x < |key| + 2 :: t[k..k + |key| + 2][x] == Quoted(key)[x];
    assert forall y | k <= y < k + |key| + 2 :: t[y] == Quoted(key)[y - k] != ':';
  }
}
