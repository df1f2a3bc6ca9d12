/** The text edits against tree edits: on the compact text of an object, each C++ routine produces
    the compact text of the edited object, wherever the key's first textual occurrence is the
    member's own key. */
module JsonRefine {
  import opened Wrappers
  import opened Text
  import opened JsonTree
  import opened JsonEdit

  // ---------- the value scanner passes over any printed value ----------

  lemma {:induction false} ScanBody(t: string, i: nat, body: string, o: int, a: int)
    requires Escaped(body) && At(t, i, body + "\"")
    ensures ValueEnd(t, i, true, false, o, a) == ValueEnd(t, i + |body| + 1, false, false, o, a)
    decreases |body|
  {
    assert forall k | 0 <= k <= |body| :: t[i + k] == (body + "\"")[k];
    if body == "" {
    } else if body[0] == '\\' {
      DropFront(t, i, body, 2);
      ScanBody(t, i + 2, body[2..], o, a);
    } else {
      DropFront(t, i, body, 1);
      ScanBody(t, i + 1, body[1..], o, a);
    }
  }

  lemma DropFront(t: string, i: nat, body: string, n: nat)
    requires n <= |body| && At(t, i, body + "\"")
    ensures At(t, i + n, body[n..] + "\"")
  {
    assert body + "\"" == body[..n] + (body[n..] + "\"");
    AtConcat(t, i, body[..n], body[n..] + "\"");
  }

  lemma ScanQuoted(t: string, i: nat, body: string, o: int, a: int)
    requires Escaped(body) && At(t, i, Quoted(body))
    ensures ValueEnd(t, i, false, false, o, a) == ValueEnd(t, i + |body| + 2, false, false, o, a)
  {
    Concat3("\"", body, "\"");
    AtConcat(t, i, "\"", body + "\"");
    assert t[i] == '"';
    ScanBody(t, i + 1, body, o, a);
  }

  predicate Inert(c: char) {
    c != '"' && c != '{' && c != '}' && c != '[' && c != ']' && c != ','
  }

  lemma {:induction false} ScanInert(t: string, i: nat, s: string, o: int, a: int)
    requires At(t, i, s) && forall k | 0 <= k < |s| :: Inert(s[k])
    ensures ValueEnd(t, i, false, false, o, a) == ValueEnd(t, i + |s|, false, false, o, a)
    decreases |s|
  {
    if s != "" {
      assert t[i] == s[0];
      assert At(t, i + 1, s[1..]);
      ScanInert(t, i + 1, s[1..], o, a);
    }
  }

  lemma {:induction false} ScanValue(t: string, i: nat, v: Json, o: nat, a: nat)
    requires WellFormed(v) && At(t, i, Print(v))
    ensures ValueEnd(t, i, false, false, o, a) == ValueEnd(t, i + |Print(v)|, false, false, o, a)
    decreases v, 1
  {
    match v
    case Null => ScanInert(t, i, "null", o, a);
    case Bool(b) => ScanInert(t, i, Print(v), o, a);
    case Num(digits) => ScanInert(t, i, digits, o, a);
    case Str(body) => ScanQuoted(t, i, body, o, a);
    case Arr(items) => ScanArray(t, i, items, o, a);
    case Obj(ms) => ScanObject(t, i, ms, o, a);
  }

  lemma {:induction false} ScanArray(t: string, i: nat, items: seq<Json>, o: nat, a: nat)
    requires (forall v | v in items :: WellFormed(v)) && At(t, i, Print(Arr(items)))
    ensures ValueEnd(t, i, false, false, o, a) == ValueEnd(t, i + |Print(Arr(items))|, false, false, o, a)
    decreases items, 4
  {
    Brackets(t, i, "[", Items(items), "]");
    ScanItems(t, i + 1, items, o, a + 1);
  }

  lemma {:induction false} ScanItems(t: string, i: nat, items: seq<Json>, o: nat, a: nat)
    requires (forall v | v in items :: WellFormed(v)) && At(t, i, Items(items)) && a > 0
    ensures ValueEnd(t, i, false, false, o, a) == ValueEnd(t, i + |Items(items)|, false, false, o, a)
    decreases items, 3
  {
    hide ValueEnd, Print, WellFormed;
    if items != [] {
      AtConcat(t, i, Print(items[0]), ItemsTail(items[1..]));
      ScanValue(t, i, items[0], o, a);
      ScanItemsTail(t, i + |Print(items[0])|, items[1..], o, a);
    }
  }

  lemma {:induction false} ScanObject(t: string, i: nat, ms: seq<Member>, o: nat, a: nat)
    requires WellFormedMembers(ms) && At(t, i, Print(Obj(ms)))
    ensures ValueEnd(t, i, false, false, o, a) == ValueEnd(t, i + |Print(Obj(ms))|, false, false, o, a)
    decreases ms, 4
  {
    Brackets(t, i, "{", Fields(ms), "}");
    ScanFields(t, i + 1, ms, o + 1, a);
    ScanBraces(t, i, |Fields(ms)|, o, a);
  }

  lemma {:induction false} ScanFields(t: string, i: nat, ms: seq<Member>, o: nat, a: nat)
    requires WellFormedMembers(ms) && At(t, i, Fields(ms)) && o > 0
    ensures ValueEnd(t, i, false, false, o, a) == ValueEnd(t, i + |Fields(ms)|, false, false, o, a)
    decreases ms, 3
  {
    hide ValueEnd, MemberText, WellFormed;
    if ms != [] {
      AtConcat(t, i, MemberText(ms[0]), FieldsTail(ms[1..]));
      ScanField(t, i, ms[0], o, a);
      ScanFieldsTail(t, i + |MemberText(ms[0])|, ms[1..], o, a);
    }
  }

  lemma ScanBraces(t: string, i: nat, n: nat, o: nat, a: nat)
    requires i + n + 2 <= |t| && t[i] == '{' && t[i + n + 1] == '}'
    requires ValueEnd(t, i + 1, false, false, o + 1, a) == ValueEnd(t, i + 1 + n, false, false, o + 1, a)
    ensures ValueEnd(t, i, false, false, o, a) == ValueEnd(t, i + n + 2, false, false, o, a)
  {
  }

  lemma {:induction false} ScanItemsTail(t: string, i: nat, items: seq<Json>, o: nat, a: nat)
    requires (forall v | v in items :: WellFormed(v)) && At(t, i, ItemsTail(items)) && a > 0
    ensures ValueEnd(t, i, false, false, o, a) == ValueEnd(t, i + |ItemsTail(items)|, false, false, o, a)
    decreases items, 0
  {
    hide ValueEnd, Print, WellFormed;
    if items != [] {
      AtConcat(t, i, "," + Print(items[0]), ItemsTail(items[1..]));
      AtConcat(t, i, ",", Print(items[0]));
      ScanComma(t, i, o, a);
      ScanValue(t, i + 1, items[0], o, a);
      ScanItemsTail(t, i + 1 + |Print(items[0])|, items[1..], o, a);
    }
  }

  lemma {:induction false} ScanField(t: string, i: nat, m: Member, o: nat, a: nat)
    requires Escaped(m.key) && WellFormed(m.value) && At(t, i, MemberText(m))
    ensures ValueEnd(t, i, false, false, o, a) == ValueEnd(t, i + |MemberText(m)|, false, false, o, a)
    decreases m, 2
  {
    hide ValueEnd, Print, WellFormed, Escaped;
    AtConcat(t, i, Quoted(m.key) + ":", Print(m.value));
    AtConcat(t, i, Quoted(m.key), ":");
    ScanQuoted(t, i, m.key, o, a);
    ScanInert(t, i + |Quoted(m.key)|, ":", o, a);
    ScanValue(t, i + |Quoted(m.key)| + 1, m.value, o, a);
  }

  lemma {:induction false} ScanFieldsTail(t: string, i: nat, ms: seq<Member>, o: nat, a: nat)
    requires WellFormedMembers(ms) && At(t, i, FieldsTail(ms)) && o > 0
    ensures ValueEnd(t, i, false, false, o, a) == ValueEnd(t, i + |FieldsTail(ms)|, false, false, o, a)
    decreases ms, 0
  {
    hide ValueEnd, MemberText, WellFormed;
    if ms != [] {
      AtConcat(t, i, "," + MemberText(ms[0]), FieldsTail(ms[1..]));
      AtConcat(t, i, ",", MemberText(ms[0]));
      ScanComma(t, i, o, a);
      ScanField(t, i + 1, ms[0], o, a);
      ScanFieldsTail(t, i + 1 + |MemberText(ms[0])|, ms[1..], o, a);
    }
  }

  lemma ScanComma(t: string, i: nat, o: nat, a: nat)
    requires At(t, i, ",") && (o > 0 || a > 0)
    ensures ValueEnd(t, i, false, false, o, a) == ValueEnd(t, i + 1, false, false, o, a)
  {
    assert t[i] == ',';
  }

  lemma Brackets(t: string, i: nat, open: string, inner: string, close: string)
    requires |open| == |close| == 1 && At(t, i, open + inner + close)
    ensures t[i] == open[0] && At(t, i + 1, inner) && i + 1 + |inner| < |t| && t[i + 1 + |inner|] == close[0]
  {
    AtConcat(t, i, open + inner, close);
    AtConcat(t, i, open, inner);
  }

  // ---------- the four edits on the text of an object ----------

  /** The first textual occurrence of the quoted key is the i-th member's own key. */
  ghost predicate Locates(ms: seq<Member>, i: nat, key: string)
    requires i < |ms|
  {
    ms[i].key == key && Find(Print(Obj(ms)), Quoted(key), 0) == Some(KeyOffset(ms, i))
  }

  /** The colon the edits of a key find: the first one from the first occurrence of the quoted key. */
  ghost predicate Reaches(t: string, key: string, c: nat) {
    var k := Find(t, Quoted(key), 0);
    k.Some? && Find(t, ":", k.value) == Some(c)
  }

  /** The colon of the i-th member. */
  function OwnColon(ms: seq<Member>, i: nat): nat
    requires i < |ms|
  {
    KeyOffset(ms, i) + |ms[i].key| + 2
  }

  lemma LocatesReaches(ms: seq<Member>, i: nat, key: string)
    requires i < |ms| && ':' !in key && Locates(ms, i, key)
    ensures Reaches(Print(Obj(ms)), key, OwnColon(ms, i))
  {
    hide Find, Print, Lead, FieldsTail, Quoted;
    Layout(ms, i);
    ColonOf(Print(Obj(ms)), KeyOffset(ms, i), key);
  }

  /** A member `"key":value` lies in `t` at `off` and ends before `end`, where `t` goes on. */
  ghost predicate Slot(t: string, off: nat, key: string, value: string, end: nat) {
    && At(t, off, Quoted(key) + ":")
    && At(t, off + |key| + 3, value)
    && end == off + |key| + 3 + |value| < |t|
  }

  /** `t` is an object's text with member `m` between the members `a` and the members `b`. */
  ghost predicate Holds(t: string, off: nat, end: nat, a: seq<Member>, m: Member, b: seq<Member>) {
    && Slot(t, off, m.key, Print(m.value), end)
    && off == 1 + |Lead(a)|
    && t[..off] == "{" + Lead(a)
    && t[end..] == FieldsTail(b) + "}"
  }

  lemma Layout(ms: seq<Member>, i: nat)
    requires i < |ms|
    ensures Holds(Print(Obj(ms)), KeyOffset(ms, i), KeyOffset(ms, i) + |MemberText(ms[i])|, ms[..i], ms[i], ms[i + 1..])
  {
    PrintAround(ms, i);
    var a, f, z := "{" + Lead(ms[..i]), MemberText(ms[i]), FieldsTail(ms[i + 1..]) + "}";
    Concat3(a + f, FieldsTail(ms[i + 1..]), "}");
    Around(a, f, z);
    AtConcat(Print(Obj(ms)), |a|, Quoted(ms[i].key) + ":", Print(ms[i].value));
  }

  lemma Around(a: string, f: string, z: string)
    ensures (a + f + z)[..|a|] == a && At(a + f + z, |a|, f) && (a + f + z)[|a| + |f|..] == z
  {
  }

  lemma ColonOf(t: string, off: nat, key: string)
    requires At(t, off, Quoted(key) + ":") && ':' !in key
    ensures Find(t, ":", off) == Some(off + |key| + 2)
  {
    AtConcat(t, off, Quoted(key), ":");
    forall p | off <= p < off + |key| + 2
      ensures !At(t, p, ":")
    {
      assert t[p] == Quoted(key)[p - off];
    }
    FindIs(t, ":", off, off + |key| + 2);
  }

  /** The scanner that starts after a member's colon stops where the member ends. */
  lemma ValueEndOf(t: string, off: nat, key: string, v: Json, end: nat)
    requires WellFormed(v) && Slot(t, off, key, Print(v), end) && (t[end] == ',' || t[end] == '}')
    ensures ValueEnd(t, off + |key| + 3, false, false, 0, 0) == end
  {
    ScanValue(t, off + |key| + 3, v, 0, 0);
  }

  lemma NextChar(ms: seq<Member>, tail: string)
    requires tail == FieldsTail(ms) + "}"
    ensures tail != "" && tail[0] == if ms == [] then '}' else ','
    ensures ms != [] ==> tail[1..] == Fields(ms) + "}"
  {
    if ms != [] {
      TailIsComma(ms);
      Concat3(",", Fields(ms), "}");
    }
  }

  /** The erased span, for a member whose key is found at its own offset. */
  lemma SpanOf(t: string, off: nat, key: string, end: nat)
    requires Find(t, Quoted(key), 0) == Some(off) && Find(t, ":", off) == Some(off + |key| + 2)
    requires off + |key| + 3 <= end < |t| && ValueEnd(t, off + |key| + 3, false, false, 0, 0) == end
    requires off > 0 && !IsSpace(t[off - 1])
    ensures RemoveSpan(t, key) == Some(if t[end] == ',' then (off, end + 1)
                                       else if t[off - 1] == ',' then (off - 1, end)
                                       else (off, end))
  {
    hide ValueEnd, Find;
  }

  lemma RemovedSpan(t: string, key: string, b: nat, e: nat)
    requires b <= e <= |t| && RemoveSpan(t, key) == Some((b, e))
    ensures RemoveText(t, key) == t[..b] + t[e..]
  {
    hide RemoveSpan;
  }

  /** removeJsonKeyValue takes out exactly the member: first, middle, last or only one. */
  lemma RemoveRefines(ms: seq<Member>, i: nat, key: string)
    requires i < |ms| && WellFormedMembers(ms) && ':' !in key && Locates(ms, i, key)
    ensures RemoveText(Print(Obj(ms)), key) == Print(Obj(ms[..i] + ms[i + 1..]))
    ensures RemoveSpan(Print(Obj(ms)), key).Some? && RemoveSpan(Print(Obj(ms)), key).value.1 < |Print(Obj(ms))|
  {
    hide Find, RemoveText, RemoveSpan, Holds, Print, KeyOffset, WellFormed, Quoted, MemberText;
    assert ms[i] in ms;
    Layout(ms, i);
    RemovedAround(
      Print(Obj(ms)), KeyOffset(ms, i), KeyOffset(ms, i) + |MemberText(ms[i])|, ms[..i], ms[i], ms[i + 1..]);
  }

  lemma RemovedAround(t: string, off: nat, end: nat, a: seq<Member>, m: Member, b: seq<Member>)
    requires Holds(t, off, end, a, m, b)
    requires WellFormed(m.value) && ':' !in m.key && Find(t, Quoted(m.key), 0) == Some(off)
    ensures RemoveText(t, m.key) == Print(Obj(a + b))
    ensures RemoveSpan(t, m.key).Some? && RemoveSpan(t, m.key).value.1 < |t|
  {
    hide Find, RemoveText, RemoveSpan, ValueEnd, Print, WellFormed, At, Quoted;
    NextChar(b, t[end..]);
    assert t[end] == t[end..][0];
    ColonOf(t, off, m.key);
    ValueEndOf(t, off, m.key, m.value, end);
    LeadEnd(a, t, off);
    SpanOf(t, off, m.key, end);
    if b != [] {
      assert |t[end..]| == 1 + |t[end..][1..]|;
      RemovedSpan(t, m.key, off, end + 1);
    } else if a != [] {
      RemovedSpan(t, m.key, off - 1, end);
    } else {
      RemovedSpan(t, m.key, off, end);
    }
    CloseGap(t, off, end, a, b);
  }

  lemma CloseGap(t: string, off: nat, end: nat, a: seq<Member>, b: seq<Member>)
    requires 0 < off <= end < |t| && t[end] == (if b == [] then '}' else ',')
    requires t[..off] == "{" + Lead(a) && (a != [] ==> t[..off - 1] == "{" + Fields(a))
    requires t[end..] == FieldsTail(b) + "}" && (b != [] ==> t[end..][1..] == Fields(b) + "}")
    requires t[off - 1] == if a == [] then '{' else ','
    ensures (if t[end] == ',' then t[..off] + t[end + 1..]
             else if t[off - 1] == ',' then t[..off - 1] + t[end..]
             else t[..off] + t[end..]) == Print(Obj(a + b))
  {
    if b != [] {
      assert t[end + 1..] == t[end..][1..];
      RemovedMiddle(a, b);
    } else {
      assert t[end..] == "}";
      assert a + b == a;
    }
  }

  lemma RemovedMiddle(a: seq<Member>, b: seq<Member>)
    requires b != []
    ensures "{" + Lead(a) + (Fields(b) + "}") == Print(Obj(a + b))
  {
    FieldsSplit(a, b);
    Insertion("{", Lead(a), "", Fields(b), "}");
  }

  /** Before a member stands a comma, or the opening brace for the first one. */
  lemma LeadEnd(a: seq<Member>, t: string, off: nat)
    requires off == 1 + |Lead(a)| <= |t| && t[..off] == "{" + Lead(a)
    ensures t[off - 1] == if a == [] then '{' else ','
    ensures a != [] ==> t[..off - 1] == "{" + Fields(a)
  {
    assert t[off - 1] == t[..off][off - 1];
    if a != [] {
      LeadDropsComma(a);
      assert t[..off - 1] == t[..off][..off - 1];
    }
  }

  /** addJsonRawBeforeKey puts the member directly before the named one. */
  lemma AddBeforeRefines(ms: seq<Member>, i: nat, before: string, m: Member)
    requires i < |ms| && Locates(ms, i, before)
    requires !HasKeyText(Print(Obj(ms)), m.key)
    ensures AddRawText(Print(Obj(ms)), before, m.key, Print(m.value)) == Print(Obj(ms[..i] + [m] + ms[i..]))
  {
    var t, off := Print(Obj(ms)), KeyOffset(ms, i);
    var a, b := ms[..i], ms[i..];
    assert a + b == ms;
    FieldsSplit(a, b);
    Concat3("{", Lead(a), Fields(b));
    Concat3("{" + Lead(a), Fields(b), "}");
    assert t[..off] == "{" + Lead(a) && t[off..] == Fields(b) + "}";
    FieldsSplit(a, [m] + b);
    assert a + ([m] + b) == a + [m] + b;
    assert ([m] + b)[1..] == b;
    TailIsComma(b);
    Concat3(MemberText(m), ",", Fields(b));
    Insertion("{", Lead(a), MemberText(m) + ",", Fields(b), "}");
  }

  lemma Insertion(o: string, a: string, f: string, b: string, c: string)
    ensures o + a + f + (b + c) == o + (a + (f + b)) + c
  {
  }

  /** With no such key anywhere, addJsonRawBeforeKey appends the member, comma only when needed. */
  lemma AddAtEndRefines(ms: seq<Member>, before: string, m: Member)
    requires WellFormedMembers(ms)
    requires !HasKeyText(Print(Obj(ms)), before) && !HasKeyText(Print(Obj(ms)), m.key)
    ensures AddRawText(Print(Obj(ms)), before, m.key, Print(m.value)) == Print(Obj(ms + [m]))
  {
    hide MemberText, AddRawText, HasKeyText, WellFormed;
    var inner := Fields(ms);
    if ms != [] {
      FieldsEnd(ms);
      FieldsSplit(ms, [m]);
      LeadDropsComma(ms);
      Concat3(inner, ",", MemberText(m));
    } else {
      assert ms + [m] == [m];
    }
    LastField(m);
    AddedAtEnd(inner, before, m.key, Print(m.value));
  }

  lemma LastField(m: Member)
    ensures Fields([m]) == MemberText(m) == Quoted(m.key) + ":" + Print(m.value)
    ensures MemberText(m) == Quoted(m.key) + ":" + Print(m.value)
  {
    assert Fields([m]) == MemberText(m) + "";
  }

  lemma AddedAtEnd(inner: string, before: string, key: string, raw: string)
    requires var t := "{" + inner + "}"; !HasKeyText(t, before) && !HasKeyText(t, key)
    requires inner != "" ==> !IsSpace(inner[|inner| - 1]) && inner[|inner| - 1] != '{'
    ensures AddRawText("{" + inner + "}", before, key, raw) ==
            "{" + (inner + ((if inner == "" then "" else ",") + (Quoted(key) + ":" + raw))) + "}"
  {
    var open := "{" + inner;
    BraceAtEnd(open);
    AppendedAt(open + "}", |open|, before, key, raw);
    hide *;
    var lead := if inner == "" then "" else ",";
    assert open[|open| - 1] == if inner == "" then '{' else inner[|inner| - 1];
    assert (open + "}")[..|open|] == open && (open + "}")[|open|..] == "}";
    Concat3("{", inner, lead + (Quoted(key) + ":" + raw));
  }

  lemma BraceAtEnd(open: string)
    ensures FindLast(open + "}", '}') == Some(|open|)
  {
  }

  lemma AppendedAt(t: string, brace: nat, before: string, key: string, raw: string)
    requires !HasKeyText(t, before) && !HasKeyText(t, key)
    requires FindLast(t, '}') == Some(brace) && 0 < brace < |t| && !IsSpace(t[brace - 1])
    ensures AddRawText(t, before, key, raw) ==
            t[..brace] + ((if t[brace - 1] == '{' then "" else ",") + (Quoted(key) + ":" + raw)) + t[brace..]
  {
    hide Find, FindLast;
    assert BackOverSpaces(t, brace) == brace;
  }

  /** A printed value ends neither in a space nor in an opening brace. */
  lemma PrintEnd(v: Json)
    requires WellFormed(v)
    ensures Print(v) != "" && !IsSpace(Print(v)[|Print(v)| - 1]) && Print(v)[|Print(v)| - 1] != '{'
  {
    match v
    case Num(digits) => assert NumberChar(digits[|digits| - 1]);
    case _ =>
  }

  lemma {:induction false} FieldsEnd(ms: seq<Member>)
    requires WellFormedMembers(ms) && ms != []
    ensures var t := Fields(ms); t != "" && !IsSpace(t[|t| - 1]) && t[|t| - 1] != '{'
  {
    if |ms| == 1 {
      PrintEnd(ms[0].value);
      assert Fields(ms) == MemberText(ms[0]) + "";
    } else {
      FieldsEnd(ms[1..]);
      TailIsComma(ms[1..]);
    }
  }

  /** Overwriting the text of one member's value. */
  lemma ValueReplaced(ms: seq<Member>, i: nat, v: Json)
    requires i < |ms|
    ensures var t, off := Print(Obj(ms)), KeyOffset(ms, i);
            var start, end := off + |ms[i].key| + 3, off + |MemberText(ms[i])|;
            start <= end <= |t| &&
            t[..start] + Print(v) + t[end..] == Print(Obj(ms[i := Member(ms[i].key, v)]))
  {
    hide Print, Lead, FieldsTail, Quoted;
    var a, q, f := "{" + Lead(ms[..i]), Quoted(ms[i].key) + ":", FieldsTail(ms[i + 1..]);
    Layout(ms, i);
    Prefix(Print(Obj(ms)), a, q);
    PrintWith(ms, i, v);
    Regroup(a, q, Print(v), f, "}");
  }

  lemma PrintWith(ms: seq<Member>, i: nat, v: Json)
    requires i < |ms|
    ensures Print(Obj(ms[i := Member(ms[i].key, v)])) ==
            "{" + Lead(ms[..i]) + (Quoted(ms[i].key) + ":" + Print(v)) + FieldsTail(ms[i + 1..]) + "}"
  {
    var ms' := ms[i := Member(ms[i].key, v)];
    PrintAround(ms', i);
    assert ms'[..i] == ms[..i] && ms'[i + 1..] == ms[i + 1..];
  }

  lemma Regroup(a: string, q: string, p: string, f: string, c: string)
    ensures a + q + p + (f + c) == a + (q + p) + f + c
  {
  }

  lemma Prefix(t: string, a: string, q: string)
    requires |a| <= |t| && t[..|a|] == a && At(t, |a|, q)
    ensures t[..|a| + |q|] == a + q
  {
    assert t[..|a| + |q|] == t[..|a|] + t[|a|..|a| + |q|];
  }

  lemma {:induction false} ClosingQuoteOf(t: string, i: nat, body: string)
    requires Escaped(body) && At(t, i, body + "\"")
    ensures ClosingQuote(t, i, false) == Some(i + |body|)
    decreases |body|
  {
    assert forall k | 0 <= k <= |body| :: t[i + k] == (body + "\"")[k];
    if body == "" {
    } else if body[0] == '\\' {
      DropFront(t, i, body, 2);
      ClosingQuoteOf(t, i + 2, body[2..]);
    } else {
      DropFront(t, i, body, 1);
      ClosingQuoteOf(t, i + 1, body[1..]);
    }
  }

  lemma QuotesOf(t: string, c: nat, body: string)
    requires c < |t| && t[c] != '"' && At(t, c + 1, Quoted(body))
    ensures t[c + 1] == t[c + 2 + |body|] == '"' && At(t, c + 2, body + "\"")
    ensures Find(t, "\"", c) == Some(c + 1)
  {
    Concat3("\"", body, "\"");
    AtConcat(t, c + 1, "\"", body + "\"");
    assert t[c + 2 + |body|] == (body + "\"")[|body|];
    FindIs(t, "\"", c, c + 1);
  }

  lemma StringSpanOf(t: string, off: nat, key: string, body: string, end: nat)
    requires Slot(t, off, key, Quoted(body), end) && Escaped(body) && Reaches(t, key, off + |key| + 2)
    ensures t[off + |key| + 3] == t[end - 1] == '"'
    ensures StringSpan(t, key) == Some((off + |key| + 4, end - 1))
  {
    var c := off + |key| + 2;
    assert t[c] == (Quoted(key) + ":")[|key| + 2];
    QuotesOf(t, c, body);
    ClosingQuoteOf(t, c + 2, body);
  }

  lemma Requote(t: string, b: nat, e: nat, s: string)
    requires 0 < b <= e < |t| && t[b - 1] == t[e] == '"'
    ensures ReplaceSpan(t, b, e, s) == t[..b - 1] + Quoted(s) + t[e + 1..]
  {
    assert t[..b] == t[..b - 1] + "\"" && t[e..] == "\"" + t[e + 1..];
    Insertion(t[..b - 1], "\"", s, "\"", t[e + 1..]);
    Concat3("\"", s, "\"");
  }

  /** replaceJsonStringValue overwrites an existing string member whose own colon it finds. */
  lemma ReplaceStringRefines(ms: seq<Member>, i: nat, key: string, value: string)
    requires i < |ms| && WellFormedMembers(ms) && ms[i].key == key && ms[i].value.Str?
    requires Reaches(Print(Obj(ms)), key, OwnColon(ms, i))
    ensures ReplaceStringText(Print(Obj(ms)), key, value) ==
            Print(Obj(ms[i := Member(key, Str(EscapeJson(value)))]))
  {
    hide Reaches, EscapeJson, ReplaceStringText, Holds, KeyOffset, Lead, FieldsTail,
       Print, WellFormed, Escaped, Quoted, MemberText;
    assert ms[i] in ms;
    Layout(ms, i);
    ReplacedStringAround(
      Print(Obj(ms)), KeyOffset(ms, i), KeyOffset(ms, i) + |MemberText(ms[i])|, ms[..i], ms[i], ms[i + 1..], value);
    ValueReplaced(ms, i, Str(EscapeJson(value)));
  }

  lemma ReplacedStringAround(t: string, off: nat, end: nat, a: seq<Member>, m: Member, b: seq<Member>, value: string)
    requires Holds(t, off, end, a, m, b) && m.value.Str? && WellFormed(m.value)
    requires Reaches(t, m.key, off + |m.key| + 2)
    ensures off + |m.key| + 3 <= end <= |t|
    ensures ReplaceStringText(t, m.key, value) ==
            t[..off + |m.key| + 3] + Print(Str(EscapeJson(value))) + t[end..]
  {
    hide Reaches, EscapeJson, ReplaceStringText, Lead, FieldsTail;
    ReplacedStringSlot(t, off, m.key, m.value.body, end, value);
  }

  lemma ReplacedStringSlot(t: string, off: nat, key: string, body: string, end: nat, value: string)
    requires Slot(t, off, key, Quoted(body), end) && Escaped(body) && Reaches(t, key, off + |key| + 2)
    ensures ReplaceStringText(t, key, value) == t[..off + |key| + 3] + Quoted(EscapeJson(value)) + t[end..]
  {
    hide StringSpan, Reaches, ClosingQuote, Escaped, EscapeJson, At, Quoted, ReplaceSpan;
    StringSpanOf(t, off, key, body, end);
    Requote(t, off + |key| + 4, end - 1, EscapeJson(value));
  }

  lemma {:induction false} IntEndOf(t: string, i: nat, s: string)
    requires At(t, i, s) && (forall k | 0 <= k < |s| :: s[k] == '-' || IsDigit(s[k]))
    requires i + |s| < |t| && t[i + |s|] != '-' && !IsDigit(t[i + |s|])
    ensures IntEnd(t, i) == i + |s|
    decreases |s|
  {
    if s != "" {
      assert t[i] == s[0];
      assert At(t, i + 1, s[1..]);
      IntEndOf(t, i + 1, s[1..]);
    }
  }

  lemma ReplacedIntSlot(t: string, off: nat, key: string, digits: string, end: nat)
    requires Slot(t, off, key, digits, end) && IntegerText(digits) && Reaches(t, key, off + |key| + 2)
    requires t[end] != '-' && !IsDigit(t[end])
    ensures IntSpan(t, key) == Some((off + |key| + 3, end))
  {
    hide Find;
    assert t[off + |key| + 3] == digits[0];
    IntEndOf(t, off + |key| + 3, digits);
  }

  lemma IntSpanAround(t: string, off: nat, end: nat, a: seq<Member>, m: Member, b: seq<Member>)
    requires Holds(t, off, end, a, m, b) && m.value.Num? && IntegerText(m.value.digits)
    requires Reaches(t, m.key, off + |m.key| + 2)
    ensures off + |m.key| + 3 <= end <= |t|
    ensures IntSpan(t, m.key) == Some((off + |m.key| + 3, end))
  {
    hide Reaches, IntSpan, IntegerText, At, Lead, FieldsTail;
    NextChar(b, t[end..]);
    assert t[end] == t[end..][0];
    ReplacedIntSlot(t, off, m.key, m.value.digits, end);
  }

  lemma IntSpanReplaced(t: string, key: string, b: nat, e: nat, value: int)
    requires b <= e <= |t| && IntSpan(t, key) == Some((b, e))
    ensures ReplaceIntText(t, key, value) == t[..b] + Print(Num(Decimal(value))) + t[e..]
  {
    hide IntSpan, Decimal;
  }

  /** replaceJsonIntValue overwrites an existing integer member whose own colon it finds. */
  lemma ReplaceIntRefines(ms: seq<Member>, i: nat, key: string, value: int)
    requires i < |ms| && WellFormedMembers(ms) && ms[i].key == key && Reaches(Print(Obj(ms)), key, OwnColon(ms, i))
    requires ms[i].value.Num? && IntegerText(ms[i].value.digits)
    ensures IntSpan(Print(Obj(ms)), key).Some?
    ensures ReplaceIntText(Print(Obj(ms)), key, value) == Print(Obj(ms[i := Member(key, Num(Decimal(value)))]))
  {
    hide Reaches, IntSpan, ReplaceIntText, Holds, KeyOffset, IntegerText, Lead, FieldsTail,
       Print, WellFormed, Quoted, MemberText;
    Layout(ms, i);
    IntSpanAround(
      Print(Obj(ms)), KeyOffset(ms, i), KeyOffset(ms, i) + |MemberText(ms[i])|, ms[..i], ms[i], ms[i + 1..]);
    IntSpanReplaced(
      Print(Obj(ms)), key, KeyOffset(ms, i) + |key| + 3, KeyOffset(ms, i) + |MemberText(ms[i])|, value);
    ValueReplaced(ms, i, Num(Decimal(value)));
  }
}
