/** Exactly when adding a member and replacing a member's value are right: an addition, when nothing in
    the object is taken for the member's key and nothing ahead for the anchor's; a replacement, when the
    member holds that kind of value and the first colon from the first occurrence is its own. */
module JsonExact {
  import opened Wrappers
  import opened Text
  import opened JsonTree
  import opened JsonEdit
  import opened JsonRefine
  import opened JsonLocate

  /** The first occurrence of a member's quoted key, which is at its own offset or before it, and
      the first colon from there. */
  lemma FirstFound(ms: seq<Member>, i: nat, key: string) returns (k: nat, c: nat)
    requires i < |ms| && ms[i].key == key && PlainKey(key)
    ensures var t, off := Print(Obj(ms)), KeyOffset(ms, i);
            && Find(t, Quoted(key), 0) == Some(k) && k <= off && At(t, k, Quoted(key)) && At(t, off, Quoted(key))
            && Find(t, ":", k) == Some(c) && c <= OwnColon(ms, i) < |t| && t[c] == ':'
            && k + |key| + 2 <= c && (c == OwnColon(ms, i) || c < off)
            && (k == off || (k + |key| + 1 <= off && k + 2 <= off))
  {
    var t, off := Print(Obj(ms)), KeyOffset(ms, i);
    Layout(ms, i);
    AtConcat(t, off, Quoted(key), ":");
    hide Print, Lead, FieldsTail, Find, Quoted, PlainKey;
    FindIsFirst(t, Quoted(key), 0);
    k := Find(t, Quoted(key), 0).value;
    CharAt(t, OwnColon(ms, i), ':');
    FindIsFirst(t, ":", k);
    c := Find(t, ":", k).value;
    CharAt(t, c, ':');
    ColonBehind(t, key, k, c);
    if c >= off {
      ColonBehind(t, key, off, c);
    }
    Apart(t, key, k, off);
  }

  /** Two occurrences of a quoted key share at most a quote. */
  lemma Apart(t: string, key: string, k: nat, off: nat)
    requires PlainKey(key) && At(t, k, Quoted(key)) && At(t, off, Quoted(key)) && k <= off
    ensures k == off || k + |key| + 1 <= off
  {
    QuotedChars(t, k, key);
    QuotedChars(t, off, key);
    assert t[off] == '"';
  }

  lemma QuotedChars(t: string, p: nat, key: string)
    requires PlainKey(key) && At(t, p, Quoted(key))
    ensures t[p] == t[p + |key| + 1] == '"'
    ensures forall y | p < y <= p + |key| :: t[y] == key[y - p - 1] != '"'
  {
    assert forall x | 0 <= x < |key| + 2 :: t[p..p + |key| + 2][x] == Quoted(key)[x];
    assert forall y | p <= y < p + |key| + 2 :: t[y] == Quoted(key)[y - p];
  }

  /** Only one plain key is quoted at a place. */
  lemma OneKey(t: string, p: nat, a: string, b: string)
    requires PlainKey(a) && PlainKey(b) && At(t, p, Quoted(a)) && At(t, p, Quoted(b))
    ensures a == b
  {
    QuotedChars(t, p, a);
    QuotedChars(t, p, b);
    hide PlainKey, At;
    assert t[p + |a| + 1] == t[p + |b| + 1];
    assert forall x | 0 <= x < |a| && |a| == |b| :: a[x] == t[p + x + 1] == b[x];
  }

  // ---------- adding ----------

  /** The object with a member put in at the i-th place. */
  function With(ms: seq<Member>, i: nat, m: Member): seq<Member>
    requires i <= |ms|
  {
    ms[..i] + [m] + ms[i..]
  }

  /** Up to where the new member goes the text does not change: only at the end of an object is its
      last character, the brace, replaced. */
  lemma WithText(ms: seq<Member>, i: nat, m: Member, n: nat)
    requires i <= |ms| && n <= KeyOffset(ms, i) && (i == |ms| ==> ms != [] && n < |Print(Obj(ms))|)
    requires i < |ms| ==> n <= |Print(Obj(ms))|
    ensures n <= |Print(Obj(With(ms, i, m)))| && Print(Obj(With(ms, i, m)))[..n] == Print(Obj(ms))[..n]
  {
    var t, w := Print(Obj(ms)), Print(Obj(With(ms, i, m)));
    assert With(ms, i, m)[..i] == ms[..i];
    Layout(With(ms, i, m), i);
    if i < |ms| {
      Layout(ms, i);
      hide Print, Lead, MemberText, FieldsTail;
      assert w[..KeyOffset(ms, i)] == t[..KeyOffset(ms, i)];
      assert w[..n] == w[..KeyOffset(ms, i)][..n];
    } else {
      assert ms[..i] == ms;
      LeadDropsComma(ms);
      assert t == "{" + Fields(ms) + "}";
      hide Print, Lead, MemberText, FieldsTail;
      assert w[..KeyOffset(ms, i)] == "{" + (Fields(ms) + ",");
      assert w[..n] == w[..KeyOffset(ms, i)][..n];
    }
  }

  /** What addJsonRawBeforeKey finds when a string or key ahead of the anchor ends in its quoted name. */
  lemma EarlyAnchor(ms: seq<Member>, i: nat, before: string) returns (p: nat)
    requires i <= |ms| && (i < |ms| ==> ms[i].key == before)
    requires WellFormedMembers(ms) && PlainKey(before) && !CleanMembers(ms[..i], before)
    ensures Find(Print(Obj(ms)), Quoted(before), 0) == Some(p) && At(Print(Obj(ms)), p, Quoted(before))
    ensures if i < |ms| then
              KeyOffset(ms, i) < |Print(Obj(ms))| && p + |before| + 1 <= KeyOffset(ms, i)
              && Print(Obj(ms))[KeyOffset(ms, i)] == '"'
            else p + |before| + 2 < |Print(Obj(ms))|
  {
    hide Print, Find, PlainKey, CleanMembers, WellFormed, Lead, FieldsTail, MemberText;
    var t := Print(Obj(ms));
    if i < |ms| {
      FirstOccurrence(ms, i, before);
      var k, c := FirstFound(ms, i, before);
      OpensQuoted(t, KeyOffset(ms, i), before);
      p := k;
    } else {
      assert ms[..i] == ms;
      AnyOccurrence(ms, before);
      FindIsFirst(t, Quoted(before), 0);
      p := Find(t, Quoted(before), 0).value;
      ClosingBrace(ms);
      assert t[p..p + |before| + 2][|before| + 1] == '"';
    }
  }

  lemma ClosingBrace(ms: seq<Member>)
    ensures var t := Print(Obj(ms)); t != "" && t[|t| - 1] == '}'
  {
  }

  /** The new member is then put in at that place, inside other text. */
  lemma AddedAstray(ms: seq<Member>, i: nat, before: string, m: Member)
    requires i <= |ms| && (i < |ms| ==> ms[i].key == before)
    requires WellFormedMembers(ms) && PlainKey(before) && !CleanMembers(ms[..i], before)
    requires PlainKey(m.key) && !HasKeyText(Print(Obj(ms)), m.key)
    ensures AddRawText(Print(Obj(ms)), before, m.key, Print(m.value)) != Print(Obj(With(ms, i, m)))
  {
    var p := EarlyAnchor(ms, i, before);
    var t, w, n := Print(Obj(ms)), Print(Obj(With(ms, i, m))), p + |before| + 2;
    hide Print, Find, PlainKey, CleanMembers, WellFormed, MemberText, Lead, With;
    KeptAnchor(ms, i, before, m, p);
    InsertedAt(t, before, m.key, Print(m.value), p);
    if AddRawText(t, before, m.key, Print(m.value)) == w {
      OneKey(w, p, before, m.key);
      assert false;
    }
  }

  lemma InsertedAt(t: string, before: string, key: string, raw: string, p: nat)
    requires !HasKeyText(t, key) && Find(t, Quoted(before), 0) == Some(p)
    ensures At(AddRawText(t, before, key, raw), p, Quoted(key))
  {
    hide Find;
    var field := Quoted(key) + ":" + raw;
    assert (t[..p] + (field + ",") + t[p..])[p..p + |key| + 2] == Quoted(key);
  }

  /** That place still holds the anchor's quoted name once the member is where it belongs. */
  lemma KeptAnchor(ms: seq<Member>, i: nat, before: string, m: Member, p: nat)
    requires i <= |ms| && At(Print(Obj(ms)), p, Quoted(before))
    requires if i < |ms| then
               KeyOffset(ms, i) < |Print(Obj(ms))| && p + |before| + 1 <= KeyOffset(ms, i)
               && Print(Obj(ms))[KeyOffset(ms, i)] == '"'
             else ms != [] && p + |before| + 2 < |Print(Obj(ms))|
    ensures At(Print(Obj(With(ms, i, m))), p, Quoted(before))
  {
    var t, w, o := Print(Obj(ms)), Print(Obj(With(ms, i, m))), KeyOffset(ms, i);
    if i == |ms| {
      AllLead(ms);
    }
    assert With(ms, i, m)[..i] == ms[..i] && With(ms, i, m)[i] == m;
    hide Print, MemberText, Lead, With;
    var n := p + |before| + 2;
    if n <= o {
      WithText(ms, i, m, n);
      SameSlice(t, w, p, n);
    } else {
      WithText(ms, i, m, o);
      NewKeyAt(ms, i, m);
      OneMore(t, w, o);
      SameSlice(t, w, p, n);
    }
  }

  lemma SameSlice(t: string, w: string, p: nat, n: nat)
    requires p <= n <= |t| && n <= |w| && t[..n] == w[..n]
    ensures t[p..n] == w[p..n]
  {
    assert t[p..n] == t[..n][p..n] && w[p..n] == w[..n][p..n];
  }

  lemma OneMore(t: string, w: string, o: nat)
    requires o < |t| && o < |w| && t[..o] == w[..o] && t[o] == w[o]
    ensures t[..o + 1] == w[..o + 1]
  {
    assert t[..o + 1] == t[..o] + [t[o]] && w[..o + 1] == w[..o] + [w[o]];
  }

  lemma AllLead(ms: seq<Member>)
    requires ms != []
    ensures KeyOffset(ms, |ms|) == |Print(Obj(ms))|
  {
    assert ms[..|ms|] == ms;
    LeadDropsComma(ms);
  }

  lemma NewKeyAt(ms: seq<Member>, i: nat, m: Member)
    requires i <= |ms|
    ensures KeyOffset(ms, i) < |Print(Obj(With(ms, i, m)))|
    ensures Print(Obj(With(ms, i, m)))[KeyOffset(ms, i)] == '"'
  {
    assert With(ms, i, m)[..i] == ms[..i] && With(ms, i, m)[i] == m;
    Layout(With(ms, i, m), i);
    AtConcat(Print(Obj(With(ms, i, m))), KeyOffset(ms, i), Quoted(m.key), ":");
    hide Print, Lead, MemberText, FieldsTail, With;
    OpensQuoted(Print(Obj(With(ms, i, m))), KeyOffset(ms, i), m.key);
  }

  lemma TailLength(ms: seq<Member>)
    ensures |FieldsTail(ms)| == |Fields(ms)| + if ms == [] then 0 else 1
  {
    if ms != [] {
      TailIsComma(ms);
    }
  }

  lemma WithLength(ms: seq<Member>, i: nat, m: Member)
    requires i <= |ms|
    ensures |Print(Obj(With(ms, i, m)))| >= |Print(Obj(ms))| + |MemberText(m)|
  {
    hide MemberText;
    var a, b := ms[..i], ms[i..];
    assert ms == a + b;
    TailSplit(a, b);
    TailSplit(a, [m]);
    TailSplit(a + [m], b);
    TailLength(ms);
    TailLength(a + [m] + b);
  }

  /** addJsonRawBeforeKey puts a member where it belongs, before the anchor or at the end, exactly when
      no string or key in the object ends in the member's quoted key, and none ahead of that place in
      the anchor's. */
  lemma AddExactly(ms: seq<Member>, before: string, m: Member)
    requires WellFormedMembers(ms) && PlainKey(before) && PlainKey(m.key)
    ensures var i := IndexOf(ms, before);
            AddRawText(Print(Obj(ms)), before, m.key, Print(m.value)) == Print(Obj(With(ms, i, m)))
            <==> CleanMembers(ms, m.key) && CleanMembers(ms[..i], before)
  {
    hide Print, PlainKey, CleanMembers, WellFormed, AddRawText, HasKeyText, MemberText;
    var i := IndexOf(ms, before);
    AnyOccurrence(ms, m.key);
    if !CleanMembers(ms, m.key) {
      NothingAdded(Print(Obj(ms)), before, m);
      WithLength(ms, i, m);
    } else if !CleanMembers(ms[..i], before) {
      AddedAstray(ms, i, before, m);
    } else if i < |ms| {
      FirstOccurrence(ms, i, before);
      AddBeforeRefines(ms, i, before, m);
    } else {
      assert ms[..i] == ms && With(ms, i, m) == ms + [m];
      AnyOccurrence(ms, before);
      AddAtEndRefines(ms, before, m);
    }
  }

  lemma NothingAdded(t: string, before: string, m: Member)
    requires HasKeyText(t, m.key)
    ensures AddRawText(t, before, m.key, Print(m.value)) == t && |MemberText(m)| > 0
  {
  }

  // ---------- replacing a string ----------

  /** The object with another string at the i-th member. */
  function WithString(ms: seq<Member>, i: nat, value: string): seq<Member>
    requires i < |ms|
  {
    ms[i := Member(ms[i].key, Str(EscapeJson(value)))]
  }

  /** Up to a member's value the text does not depend on that value. */
  lemma SameStart(ms: seq<Member>, i: nat, v: Json)
    requires i < |ms|
    ensures var t, u, o := Print(Obj(ms)), Print(Obj(ms[i := Member(ms[i].key, v)])), OwnColon(ms, i);
            o < |t| && o < |u| && u[..o + 1] == t[..o + 1]
  {
    hide Print, Lead, MemberText;
    ValueReplaced(ms, i, v);
  }

  /** Up to its own value the text does not change, and there the new value stands. */
  lemma WithStringText(ms: seq<Member>, i: nat, c: char)
    requires i < |ms| && EscapeChar(c) == [c]
    ensures var t, w, o := Print(Obj(ms)), Print(Obj(WithString(ms, i, [c]))), OwnColon(ms, i);
            o + 2 < |w| && o < |t| && w[..o + 1] == t[..o + 1] && w[o + 2] == c
  {
    var t, o, s := Print(Obj(ms)), OwnColon(ms, i), EscapeJson([c]);
    OneChar(c);
    ValueReplaced(ms, i, Str(s));
    hide Print, Lead;
    var e := KeyOffset(ms, i) + |MemberText(ms[i])|;
    PrintedString(s);
    assert t[..o + 1] + ("\"" + s + "\"") + t[e..] == t[..o + 1] + "\"" + s + ("\"" + t[e..]);
  }

  lemma OneChar(c: char)
    requires EscapeChar(c) == [c]
    ensures EscapeJson([c]) == [c]
  {
    assert [c][1..] == "" && EscapeJson("") == "";
    assert EscapeJson([c]) == [c] + EscapeJson("");
  }

  lemma PrintedString(s: string)
    ensures Print(Str(s)) == "\"" + s + "\""
  {
  }

  /** Where another colon is found, one of two values is written to the wrong place. */
  lemma WrongString(ms: seq<Member>, i: nat, key: string)
    requires i < |ms| && ms[i].key == key && PlainKey(key) && !Reaches(Print(Obj(ms)), key, OwnColon(ms, i))
    ensures exists value :: ReplaceStringText(Print(Obj(ms)), key, value) != Print(Obj(WithString(ms, i, value)))
  {
    hide Print, Lead, Find, StringSpan, Quoted, EscapeJson, PlainKey, ReplaceStringText, WithString;
    var t, off := Print(Obj(ms)), KeyOffset(ms, i);
    var k, c := FirstFound(ms, i, key);
    assert t[off] == '"' by {
      OpensQuoted(t, off, key);
    }
    if StringSpan(t, key).Some? {
      QuoteSoon(t, key, k, c, off);
    }
    LettersPlain();
    WithStringText(ms, i, 'x');
    WithStringText(ms, i, 'y');
    MissedString(t, key, OwnColon(ms, i), Print(Obj(WithString(ms, i, "x"))), Print(Obj(WithString(ms, i, "y"))));
  }

  lemma OpensQuoted(t: string, off: nat, key: string)
    requires At(t, off, Quoted(key))
    ensures off < |t| && t[off] == '"'
  {
    assert t[off..off + |key| + 2][0] == '"';
  }

  lemma LettersPlain()
    ensures EscapeChar('x') == ['x'] && EscapeChar('y') == ['y']
  {
  }

  /** A span that starts before a value cannot have received both of two values that belong there. */
  lemma MissedString(t: string, key: string, o: nat, wx: string, wy: string)
    requires StringSpan(t, key).Some? ==> StringSpan(t, key).value.0 <= o
    requires o + 2 < |wx| && o + 2 < |wy| && o < |t| && wx[..o + 1] == wy[..o + 1] == t[..o + 1]
    requires wx[o + 2] == 'x' && wy[o + 2] == 'y'
    ensures ReplaceStringText(t, key, "x") != wx || ReplaceStringText(t, key, "y") != wy
  {
    hide StringSpan, EscapeJson;
    if StringSpan(t, key).Some? {
      var b := StringSpan(t, key).value.0;
      ReplacedAt(t, key, b, "x");
      ReplacedAt(t, key, b, "y");
      assert wx[b] == wx[..o + 1][b] && wy[b] == wy[..o + 1][b];
    }
  }

  lemma QuoteSoon(t: string, key: string, k: nat, c: nat, off: nat)
    requires Find(t, Quoted(key), 0) == Some(k) && Find(t, ":", k) == Some(c) && c < off < |t| && t[off] == '"'
    requires StringSpan(t, key).Some?
    ensures StringSpan(t, key).value.0 <= off + 1
  {
    FindIsFirst(t, "\"", c);
    CharAt(t, off, '"');
  }

  lemma ReplacedAt(t: string, key: string, b: nat, value: string)
    requires StringSpan(t, key).Some? && StringSpan(t, key).value.0 == b
    requires value == "x" || value == "y"
    ensures var u := ReplaceStringText(t, key, value); b < |u| && u[b] == value[0]
  {
    hide StringSpan;
    assert value[1..] == "" && EscapeJson(value) == value + "";
  }

  /** A member's value begins right behind its colon. */
  lemma ValueStart(ms: seq<Member>, i: nat)
    requires i < |ms| && WellFormedMembers(ms)
    ensures var t, o, v := Print(Obj(ms)), OwnColon(ms, i), Print(ms[i].value);
            && v != "" && At(t, o, ":") && At(t, o + 1, v) && o + 1 + |v| < |t|
            && KeyOffset(ms, i) + |MemberText(ms[i])| == o + 1 + |v|
  {
    hide Print, Lead, FieldsTail, WellFormed, At;
    assert ms[i] in ms;
    Layout(ms, i);
    AtConcat(Print(Obj(ms)), KeyOffset(ms, i), Quoted(ms[i].key), ":");
    PrintEnd(ms[i].value);
  }

  lemma OnlyStringsQuoted(v: Json)
    requires WellFormed(v)
    ensures Print(v) != "" && (Print(v)[0] == '"' <==> v.Str?)
  {
    match v
    case Num(digits) => assert NumberChar(digits[0]);
    case _ =>
  }

  /** Another kind of value is never overwritten by a string: the quotes come from later text. */
  lemma NoStringThere(ms: seq<Member>, i: nat, key: string, value: string)
    requires i < |ms| && WellFormedMembers(ms) && ms[i].key == key && !ms[i].value.Str?
    requires Reaches(Print(Obj(ms)), key, OwnColon(ms, i))
    ensures ReplaceStringText(Print(Obj(ms)), key, value) != Print(Obj(ms[i := Member(key, Str(EscapeJson(value)))]))
  {
    hide *;
    var v, q := Print(ms[i].value), Print(Str(EscapeJson(value)));
    ValueStart(ms, i);
    OtherStart(ms, i, value);
    ValueChanged(ms, i, Str(EscapeJson(value)));
    NotOverwritten(Print(Obj(ms)), key, OwnColon(ms, i), v, q, OwnColon(ms, i) + 1 + |v|, value);
  }

  lemma OtherStart(ms: seq<Member>, i: nat, value: string)
    requires i < |ms| && WellFormedMembers(ms) && !ms[i].value.Str?
    ensures Print(ms[i].value) != "" && Print(ms[i].value)[0] != '"'
    ensures Print(Str(EscapeJson(value))) != "" && Print(Str(EscapeJson(value)))[0] == '"'
  {
    hide EscapeJson, WellFormed;
    assert ms[i] in ms;
    OnlyStringsQuoted(ms[i].value);
  }

  lemma ValueChanged(ms: seq<Member>, i: nat, v: Json)
    requires i < |ms| && WellFormedMembers(ms)
    ensures var t, o, was := Print(Obj(ms)), OwnColon(ms, i), Print(ms[i].value);
            && o + 1 + |was| <= |t|
            && Print(Obj(ms[i := Member(ms[i].key, v)])) == t[..o + 1] + Print(v) + t[o + 1 + |was|..]
  {
    hide Print, WellFormed, At, KeyOffset, MemberText;
    ValueStart(ms, i);
    ValueReplaced(ms, i, v);
  }

  lemma NotOverwritten(t: string, key: string, o: nat, v: string, q: string, e: nat, value: string)
    requires Reaches(t, key, o) && At(t, o, ":") && At(t, o + 1, v) && e <= |t|
    requires v != "" && v[0] != '"' && q != "" && q[0] == '"'
    ensures ReplaceStringText(t, key, value) != t[..o + 1] + q + t[e..]
  {
    hide ReplaceStringText, Reaches, At;
    FirstOf(t, o, ":");
    FirstOf(t, o + 1, v);
    QuoteAfter(t, o, q, e);
    StartKept(t, key, o, value);
  }

  lemma FirstOf(t: string, p: nat, s: string)
    requires At(t, p, s) && s != ""
    ensures p < |t| && t[p] == s[0]
  {
    assert t[p] == t[p..p + |s|][0];
  }

  lemma QuoteAfter(t: string, o: nat, q: string, e: nat)
    requires o < |t| && e <= |t| && q != "" && q[0] == '"'
    ensures var w := t[..o + 1] + q + t[e..]; o + 1 < |w| && w[o + 1] == '"'
  {
  }

  /** The character behind the colon found stays, unless a string begins there. */
  lemma StartKept(t: string, key: string, o: nat, value: string)
    requires Reaches(t, key, o) && o + 1 < |t| && t[o] == ':' && t[o + 1] != '"'
    ensures var u := ReplaceStringText(t, key, value); o + 1 < |u| && u[o + 1] == t[o + 1]
  {
    hide Reaches, StringSpan, EscapeJson;
    if StringSpan(t, key).Some? {
      LateSpan(t, key, o);
    }
  }

  lemma LateSpan(t: string, key: string, o: nat)
    requires Reaches(t, key, o) && o + 1 < |t| && t[o] == ':' && t[o + 1] != '"' && StringSpan(t, key).Some?
    ensures StringSpan(t, key).value.0 > o + 1
  {
    FindIsFirst(t, "\"", o);
    CharAt(t, o, '"');
    CharAt(t, o + 1, '"');
  }

  /** replaceJsonStringValue overwrites a member for every new value exactly when that member holds a
      string and no other colon stands between the first occurrence of its quoted key and its own
      colon. */
  lemma ReplaceStringExactly(ms: seq<Member>, i: nat, key: string)
    requires i < |ms| && WellFormedMembers(ms) && PlainKey(key) && ms[i].key == key
    ensures (forall value :: ReplaceStringText(Print(Obj(ms)), key, value) == Print(Obj(WithString(ms, i, value))))
            <==> Reaches(Print(Obj(ms)), key, OwnColon(ms, i)) && ms[i].value.Str?
  {
    hide Print, ReplaceStringText, Reaches, PlainKey, WellFormed, EscapeJson;
    if !Reaches(Print(Obj(ms)), key, OwnColon(ms, i)) {
      WrongString(ms, i, key);
    } else if ms[i].value.Str? {
      forall value: string
        ensures ReplaceStringText(Print(Obj(ms)), key, value) == Print(Obj(WithString(ms, i, value)))
      {
        ReplaceStringRefines(ms, i, key, value);
      }
    } else {
      NoStringThere(ms, i, key, "");
    }
  }

  // ---------- replacing an integer ----------

  function WithInt(ms: seq<Member>, i: nat, n: int): seq<Member>
    requires i < |ms|
  {
    ms[i := Member(ms[i].key, Num(Decimal(n)))]
  }

  /** Where another colon is found, one of the numbers 1 and 2 is written to the wrong place. */
  lemma WrongInt(ms: seq<Member>, i: nat, key: string)
    requires i < |ms| && ms[i].key == key && PlainKey(key) && !Reaches(Print(Obj(ms)), key, OwnColon(ms, i))
    ensures exists n :: ReplaceIntText(Print(Obj(ms)), key, n) != Print(Obj(WithInt(ms, i, n)))
  {
    hide Print, Lead, Find, IntSpan, Quoted, Decimal, PlainKey, ReplaceIntText;
    var t, off := Print(Obj(ms)), KeyOffset(ms, i);
    var k, c := FirstFound(ms, i, key);
    OpensQuoted(t, off, key);
    NumberSoon(t, key, k, c, off);
    SameStart(ms, i, Num(Decimal(1)));
    SameStart(ms, i, Num(Decimal(2)));
    MissedInt(t, key, OwnColon(ms, i), Print(Obj(WithInt(ms, i, 1))), Print(Obj(WithInt(ms, i, 2))));
  }

  lemma NumberSoon(t: string, key: string, k: nat, c: nat, off: nat)
    requires Find(t, Quoted(key), 0) == Some(k) && Find(t, ":", k) == Some(c) && c < off < |t| && t[off] == '"'
    ensures IntSpan(t, key).Some? && IntSpan(t, key).value.0 <= off
  {
    hide Find;
    SpacesEnd(t, c + 1, off);
  }

  lemma MissedInt(t: string, key: string, o: nat, w1: string, w2: string)
    requires IntSpan(t, key).Some? && IntSpan(t, key).value.0 <= o
    requires o < |t| && o < |w1| && o < |w2| && w1[..o + 1] == w2[..o + 1] == t[..o + 1]
    ensures ReplaceIntText(t, key, 1) != w1 || ReplaceIntText(t, key, 2) != w2
  {
    OneDigit();
    hide IntSpan, Decimal;
    var p := IntSpan(t, key).value.0;
    assert ReplaceIntText(t, key, 1)[p] == '1' && ReplaceIntText(t, key, 2)[p] == '2';
    assert w1[p] == w1[..o + 1][p] && w2[p] == w2[..o + 1][p];
  }

  lemma OneDigit()
    ensures Decimal(1) == "1" && Decimal(2) == "2"
  {
  }

  lemma SpacesEnd(t: string, i: nat, off: nat)
    requires i <= off < |t| && !IsSpace(t[off])
    ensures SkipSpaces(t, i) <= off
  {
  }

  lemma OnlyNumbersNumeric(v: Json)
    requires WellFormed(v)
    ensures IntegerText(Print(v)) <==> v.Num? && IntegerText(v.digits)
    ensures Print(v) != "" && !IsSpace(Print(v)[0])
  {
    match v
    case Num(digits) => assert NumberChar(digits[0]);
    case _ => assert Print(v)[0] != '-' && !IsDigit(Print(v)[0]);
  }

  /** The minus signs and digits run to the end of a part exactly when it has nothing else. */
  lemma {:induction false} IntEndWithin(t: string, i: nat, end: nat)
    requires i <= end <= |t|
    ensures IntEnd(t, i) == end ==> forall p | i <= p < end :: t[p] == '-' || IsDigit(t[p])
    decreases |t| - i
  {
    if i < end && (t[i] == '-' || IsDigit(t[i])) {
      IntEndWithin(t, i + 1, end);
    }
  }

  /** Of another kind of value only the leading minus signs and digits are overwritten. */
  lemma NoIntegerThere(ms: seq<Member>, i: nat, key: string, n: int)
    requires i < |ms| && WellFormedMembers(ms) && ms[i].key == key && !IntegerText(Print(ms[i].value))
    requires Reaches(Print(Obj(ms)), key, OwnColon(ms, i))
    ensures ReplaceIntText(Print(Obj(ms)), key, n) != Print(Obj(ms[i := Member(key, Num(Decimal(n)))]))
  {
    hide *;
    var t, o, v := Print(Obj(ms)), OwnColon(ms, i), Print(ms[i].value);
    NumericStart(ms, i);
    ValueStart(ms, i);
    ValueChanged(ms, i, Num(Decimal(n)));
    PartlyReplaced(t, key, o, v, n);
    PrintedNumber(Decimal(n));
  }

  lemma NumericStart(ms: seq<Member>, i: nat)
    requires i < |ms| && WellFormedMembers(ms)
    ensures Print(ms[i].value) != "" && !IsSpace(Print(ms[i].value)[0])
  {
    hide WellFormed;
    assert ms[i] in ms;
    OnlyNumbersNumeric(ms[i].value);
  }

  lemma PartlyReplaced(t: string, key: string, o: nat, v: string, n: int)
    requires Reaches(t, key, o) && At(t, o + 1, v) && v != "" && !IntegerText(v) && !IsSpace(v[0])
    ensures |ReplaceIntText(t, key, n)| != |t| - |v| + |Decimal(n)|
  {
    hide Find, Decimal;
    assert forall p | 0 <= p < |v| :: v[p] == t[o + 1..o + 1 + |v|][p] == t[o + 1 + p];
    assert t[o + 1] == v[0];
    IntEndWithin(t, o + 1, o + 1 + |v|);
    assert IntEnd(t, o + 1) != o + 1 + |v|;
  }

  /** replaceJsonIntValue overwrites a member for every number exactly when that member holds an
      integer, under the same condition. */
  lemma ReplaceIntExactly(ms: seq<Member>, i: nat, key: string)
    requires i < |ms| && WellFormedMembers(ms) && PlainKey(key) && ms[i].key == key
    ensures (forall n :: ReplaceIntText(Print(Obj(ms)), key, n) == Print(Obj(WithInt(ms, i, n))))
            <==> Reaches(Print(Obj(ms)), key, OwnColon(ms, i)) && ms[i].value.Num? && IntegerText(ms[i].value.digits)
  {
    hide Print, ReplaceIntText, Reaches, PlainKey, WellFormed, Decimal, IntegerText;
    assert ms[i] in ms;
    OnlyNumbersNumeric(ms[i].value);
    if !Reaches(Print(Obj(ms)), key, OwnColon(ms, i)) {
      WrongInt(ms, i, key);
    } else if ms[i].value.Num? && IntegerText(ms[i].value.digits) {
      forall n: int
        ensures ReplaceIntText(Print(Obj(ms)), key, n) == Print(Obj(WithInt(ms, i, n)))
      {
        ReplaceIntRefines(ms, i, key, n);
      }
    } else {
      NoIntegerThere(ms, i, key, 1);
    }
  }
}
