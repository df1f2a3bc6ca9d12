/** Exactly when removing a member is right: whatever its value, when the first occurrence of the quoted
    key is its own; for one scalar value, also when a longer key right before it ends in the same text. */
module JsonRemoval {
  import opened Wrappers
  import opened Text
  import opened JsonTree
  import opened JsonEdit
  import opened JsonRefine
  import opened JsonLocate
  import opened JsonExact

  // ---------- removing ----------

  function Dropped(ms: seq<Member>, i: nat): seq<Member>
    requires i < |ms|
  {
    ms[..i] + ms[i + 1..]
  }

  /** How much shorter an object's text is without a member: by its text and at most one comma. */
  lemma DroppedLength(ms: seq<Member>, i: nat)
    requires i < |ms|
    ensures var n := |Print(Obj(ms))| - |Print(Obj(Dropped(ms, i)))|;
            |MemberText(ms[i])| <= n <= |MemberText(ms[i])| + 1
  {
    hide MemberText;
    var a, b := ms[..i], ms[i + 1..];
    PrintAround(ms, i);
    if b != [] {
      FieldsSplit(a, b);
      TailIsComma(b);
    } else {
      assert a + b == a;
      if a != [] {
        LeadDropsComma(a);
      }
    }
  }

  /** The scanner stops at a comma, at a brace, or at the end. */
  lemma {:induction false} StopChar(t: string, i: nat, inStr: bool, esc: bool, o: int, a: int)
    requires i <= |t|
    ensures var e := ValueEnd(t, i, inStr, esc, o, a); e < |t| ==> t[e] == ',' || t[e] == '}'
    decreases |t| - i
  {
    if i < |t| {
      var ch := t[i];
      if inStr {
        StopChar(t, i + 1, esc || ch != '"', !esc && ch == '\\', o, a);
      } else if ch == '"' {
        StopChar(t, i + 1, true, esc, o, a);
      } else if ch == '{' {
        StopChar(t, i + 1, false, esc, o + 1, a);
      } else if ch == '}' {
        if !(o == 0 && a == 0) {
          StopChar(t, i + 1, false, esc, o - 1, a);
        }
      } else if ch == '[' {
        StopChar(t, i + 1, false, esc, o, a + 1);
      } else if ch == ']' {
        StopChar(t, i + 1, false, esc, o, a - 1);
      } else if !(ch == ',' && o == 0 && a == 0) {
        StopChar(t, i + 1, false, esc, o, a);
      }
    }
  }

  /** A removal takes from the first occurrence of the key, or the comma before it, to the end of the
      scan, and a comma there. */
  lemma RemovedBounds(t: string, key: string, k: nat, c: nat)
    requires Find(t, Quoted(key), 0) == Some(k) && Find(t, ":", k) == Some(c) && c < |t|
    ensures var e, n := ValueEnd(t, c + 1, false, false, 0, 0), |t| - |RemoveText(t, key)|;
            e - k <= n <= e + 1
  {
    hide Find, ValueEnd;
  }

  /** Where the colon found is the member's own, removal is right exactly for its own key: an earlier
      occurrence is taken out with everything up to the member's end. */
  lemma RemoveReaching(ms: seq<Member>, i: nat, key: string)
    requires i < |ms| && WellFormedMembers(ms) && PlainKey(key) && ms[i].key == key
    requires Reaches(Print(Obj(ms)), key, OwnColon(ms, i))
    ensures RemoveText(Print(Obj(ms)), key) == Print(Obj(Dropped(ms, i))) <==> Locates(ms, i, key)
  {
    hide ValueEnd, Print, Find, RemoveText, Lead, Quoted, PlainKey, MemberText, WellFormed, Locates;
    if Locates(ms, i, key) {
      NoColon(key);
      RemoveRefines(ms, i, key);
    } else {
      RemovesTooMuch(ms, i, key);
    }
  }

  lemma RemovesTooMuch(ms: seq<Member>, i: nat, key: string)
    requires i < |ms| && WellFormedMembers(ms) && PlainKey(key) && ms[i].key == key
    requires Reaches(Print(Obj(ms)), key, OwnColon(ms, i)) && !Locates(ms, i, key)
    ensures |RemoveText(Print(Obj(ms)), key)| < |Print(Obj(Dropped(ms, i)))|
  {
    hide ValueEnd, Print, Find, RemoveText, Lead, Quoted, PlainKey, MemberText, WellFormed;
    var k, c := FirstFound(ms, i, key);
    OwnEnd(ms, i);
    hide KeyOffset, Dropped;
    RemovedBounds(Print(Obj(ms)), key, k, c);
    DroppedLength(ms, i);
  }

  lemma NoColon(key: string)
    requires PlainKey(key)
    ensures ':' !in key
  {
  }

  lemma OwnEnd(ms: seq<Member>, i: nat)
    requires i < |ms| && WellFormedMembers(ms)
    ensures var e := KeyOffset(ms, i) + |MemberText(ms[i])|;
            && OwnColon(ms, i) + 1 <= e <= |Print(Obj(ms))|
            && ValueEnd(Print(Obj(ms)), OwnColon(ms, i) + 1, false, false, 0, 0) == e
  {
    hide Print, WellFormed, ValueEnd, Lead;
    var t, off := Print(Obj(ms)), KeyOffset(ms, i);
    var e := off + |MemberText(ms[i])|;
    assert ms[i] in ms;
    Layout(ms, i);
    NextChar(ms[i + 1..], t[e..]);
    assert t[e] == t[e..][0];
    ValueEndOf(t, off, ms[i].key, ms[i].value, e);
  }

  // ---------- removing, whatever the value ----------

  function Ones(n: nat): (r: string)
    ensures |r| == n && forall j | 0 <= j < n :: r[j] == '1'
  {
    seq(n, j => '1')
  }

  /** With a number longer than all the text before it, a removal that starts at an earlier occurrence
      takes too little or too much. */
  lemma LongNumber(ms: seq<Member>, i: nat, key: string, n: nat)
    requires i < |ms| && PlainKey(key) && ms[i].key == key && ms[i].value == Num(Ones(n))
    requires n > KeyOffset(ms, i) + 1 && !Locates(ms, i, key)
    ensures RemoveText(Print(Obj(ms)), key) != Print(Obj(Dropped(ms, i)))
  {
    hide ValueEnd, Print, Find, RemoveText, Lead, Ones, PlainKey, Quoted;
    var t, off, start := Print(Obj(ms)), KeyOffset(ms, i), OwnColon(ms, i) + 1;
    var k, c := FirstFound(ms, i, key);
    assert k != off;
    NumberStands(ms, i, n);
    RemovedBounds(t, key, k, c);
    DroppedLength(ms, i);
    StopsOutside(t, c + 1, start, n);
  }

  lemma StopsOutside(t: string, i: nat, start: nat, n: nat)
    requires i <= |t| && start + n < |t| && forall j | start <= j < start + n :: t[j] == '1'
    ensures var e := ValueEnd(t, i, false, false, 0, 0); e < start || start + n <= e
  {
    StopChar(t, i, false, false, 0, 0);
    hide ValueEnd;
  }

  lemma NumberStands(ms: seq<Member>, i: nat, n: nat)
    requires i < |ms| && ms[i].value == Num(Ones(n))
    ensures var t, start := Print(Obj(ms)), OwnColon(ms, i) + 1;
            && |MemberText(ms[i])| == |ms[i].key| + 3 + n && start + n < |t|
            && forall j | start <= j < start + n :: t[j] == '1'
  {
    var t, start := Print(Obj(ms)), OwnColon(ms, i) + 1;
    Layout(ms, i);
    hide Ones, Lead;
    assert forall j | 0 <= j < n :: t[start..start + n][j] == Ones(n)[j];
    assert forall j | start <= j < start + n :: t[j] == Ones(n)[j - start];
  }

  /** Which occurrence comes first does not depend on the member's own value. */
  lemma LocatesAnyValue(ms: seq<Member>, i: nat, key: string, v: Json)
    requires i < |ms| && ms[i].key == key
    ensures Locates(ms, i, key) ==> Locates(ms[i := Member(key, v)], i, key)
  {
    hide Print, Lead, Find, Quoted;
    var ms' := ms[i := Member(key, v)];
    assert ms'[..i] == ms[..i];
    SameStart(ms, i, v);
    QuotedLength(key);
    if Locates(ms, i, key) {
      FindCommon(Print(Obj(ms)), Print(Obj(ms')), Quoted(key), 0, OwnColon(ms, i) + 1);
    }
  }

  /** The key's removal is right whatever value the member has. */
  ghost predicate RemovesAlways(ms: seq<Member>, i: nat, key: string)
    requires i < |ms|
  {
    forall v: Json | WellFormed(v) ::
      RemoveText(Print(Obj(ms[i := Member(key, v)])), key) == Print(Obj(Dropped(ms, i)))
  }

  /** removeJsonKeyValue takes out a member, whatever its value, exactly when the first occurrence of
      its quoted key is its own. */
  lemma RemoveExactly(ms: seq<Member>, i: nat, key: string)
    requires i < |ms| && WellFormedMembers(ms) && PlainKey(key) && ms[i].key == key
    ensures RemovesAlways(ms, i, key) <==> Locates(ms, i, key)
  {
    NoColon(key);
    hide Locates, Print, RemoveText, PlainKey, WellFormed, Lead;
    if Locates(ms, i, key) {
      forall v: Json | WellFormed(v)
        ensures RemoveText(Print(Obj(ms[i := Member(key, v)])), key) == Print(Obj(Dropped(ms, i)))
      {
        var ms' := ms[i := Member(key, v)];
        LocatesAnyValue(ms, i, key, v);
        assert Dropped(ms', i) == Dropped(ms, i);
        WellFormedWith(ms, i, v);
        RemoveRefines(ms', i, key);
      }
    } else {
      var n := KeyOffset(ms, i) + 2;
      var v := Num(Ones(n));
      var ms' := ms[i := Member(key, v)];
      assert ms'[..i] == ms[..i] && Dropped(ms', i) == Dropped(ms, i);
      LocatesAnyValue(ms', i, key, ms[i].value);
      assert ms'[i := Member(key, ms[i].value)] == ms;
      LongNumber(ms', i, key, n);
      OnesWellFormed(n);
    }
  }

  lemma OnesWellFormed(n: nat)
    requires n > 0
    ensures WellFormed(Num(Ones(n)))
  {
  }

  lemma WellFormedWith(ms: seq<Member>, i: nat, v: Json)
    requires i < |ms| && WellFormedMembers(ms) && WellFormed(v)
    ensures WellFormedMembers(ms[i := Member(ms[i].key, v)])
  {
    hide WellFormed, Escaped;
    assert ms[i] in ms;
    assert forall m | m in ms[i := Member(ms[i].key, v)] :: m in ms || m == Member(ms[i].key, v);
  }

  // ---------- a string that equals the next member's key ----------

  lemma {:induction false} LeadSnoc(a: seq<Member>, m: Member)
    ensures Lead(a + [m]) == Lead(a) + (MemberText(m) + ",")
  {
    hide MemberText;
    if a == [] {
      assert a + [m] == [m] && [m][1..] == [];
    } else {
      LeadSnoc(a[1..], m);
      assert (a + [m])[1..] == a[1..] + [m];
      Concat3(MemberText(a[0]) + ",", Lead(a[1..]), MemberText(m) + ",");
    }
  }

  /** With a string equal to the key right before the member, that string is the first occurrence, and
      the colon found is still the member's own. */
  lemma StringBefore(ms: seq<Member>, i: nat, key: string)
    requires 0 < i < |ms| && WellFormedMembers(ms) && PlainKey(key) && ms[i].key == key
    requires ms[i - 1].value == Str(key) && !EndsQuoted(ms[i - 1].key, key) && CleanMembers(ms[..i - 1], key)
    ensures Reaches(Print(Obj(ms)), key, OwnColon(ms, i)) && !Locates(ms, i, key)
  {
    hide Print, Lead, Find, Quoted, PlainKey, WellFormed, CleanMembers, EndsQuoted, Escaped, MemberText, FieldsTail, At;
    var t, m := Print(Obj(ms)), ms[i - 1];
    var off, value := KeyOffset(ms, i - 1), KeyOffset(ms, i - 1) + |m.key| + 3;
    assert ms[..i] == ms[..i - 1] + [m];
    LeadSnoc(ms[..i - 1], m);
    LengthOfString(m);
    BeforeValue(ms, i - 1, key);
    FindIs(t, Quoted(key), 0, value);
    var k, c := FirstFound(ms, i, key);
    assert t[value + |key| + 2] == ',' by {
      CommaBehind(ms, i - 1);
    }
  }

  lemma LengthOfString(m: Member)
    requires m.value.Str?
    ensures |MemberText(m)| == |m.key| + |m.value.body| + 5
  {
  }

  lemma CommaBehind(ms: seq<Member>, i: nat)
    requires i + 1 < |ms|
    ensures var e := KeyOffset(ms, i) + |MemberText(ms[i])|; e < |Print(Obj(ms))| && Print(Obj(ms))[e] == ','
  {
    hide Print, Lead, MemberText, FieldsTail, Find, At;
    var t, e := Print(Obj(ms)), KeyOffset(ms, i) + |MemberText(ms[i])|;
    Layout(ms, i);
    NextChar(ms[i + 1..], t[e..]);
    assert t[e] == t[e..][0];
  }

  /** Up to the i-th member's value there is no occurrence, and at it there is one. */
  lemma BeforeValue(ms: seq<Member>, i: nat, key: string)
    requires i < |ms| && WellFormedMembers(ms) && PlainKey(key) && ms[i].value == Str(key)
    requires !EndsQuoted(ms[i].key, key) && CleanMembers(ms[..i], key)
    ensures var t, value := Print(Obj(ms)), KeyOffset(ms, i) + |ms[i].key| + 3;
            At(t, value, Quoted(key)) && Free(t, 0, value, Quoted(key))
  {
    hide Print, Lead, Find, PlainKey, WellFormed, CleanMembers, EndsQuoted, Escaped, MemberText, FieldsTail, Quoted;
    var t, m, off := Print(Obj(ms)), ms[i], KeyOffset(ms, i);
    var c := off + |m.key| + 2;
    PrintedQuoted(key);
    QuotedLength(m.key);
    Layout(ms, i);
    AtConcat(t, off, Quoted(m.key), ":");
    AtPrefix(t, "{", Lead(ms[..i]));
    CharAt(t, c, ':');
    hide At;
    assert m in ms;
    FreeNoQuote(t, 0, "{", key);
    FreeLead(t, 1, ms[..i], key);
    FreeToken(t, off, m.key, key);
    FreeNoQuote(t, c, ":", key);
    FreeJoin(t, 0, 1, off, Quoted(key));
    FreeJoin(t, 0, off, c, Quoted(key));
    FreeJoin(t, 0, c, c + 1, Quoted(key));
  }

  lemma PrintedQuoted(key: string)
    ensures Print(Str(key)) == Quoted(key)
  {
  }

  // ---------- a member that is not there ----------

  /** The edits of a key leave a text alone exactly when they find no colon from its first occurrence, and
      for a string no closed string behind that colon. */
  lemma LeftAloneExactly(t: string, key: string)
    requires PlainKey(key)
    ensures RemoveText(t, key) == t <==> forall c :: !Reaches(t, key, c)
    ensures (forall n :: ReplaceIntText(t, key, n) == t) <==> forall c :: !Reaches(t, key, c)
    ensures (forall v :: ReplaceStringText(t, key, v) == t) <==> StringSpan(t, key).None?
  {
    hide Find, ValueEnd, PlainKey, RemoveText, ReplaceIntText, ReplaceStringText, StringSpan;
    var k := Find(t, Quoted(key), 0);
    if k.Some? && Find(t, ":", k.value).Some? {
      var c := Find(t, ":", k.value).value;
      assert Reaches(t, key, c);
      RemovedBounds(t, key, k.value, c);
      NumberWritten(t, key);
    } else {
      NoColonFound(t, key);
    }
    StringWritten(t, key);
  }

  lemma NoColonFound(t: string, key: string)
    requires var k := Find(t, Quoted(key), 0); k.None? || Find(t, ":", k.value).None?
    ensures RemoveText(t, key) == t && forall n :: ReplaceIntText(t, key, n) == t
  {
    hide Find, Decimal;
  }

  lemma NumberWritten(t: string, key: string)
    requires IntSpan(t, key).Some?
    ensures exists n :: ReplaceIntText(t, key, n) != t
  {
    OneDigit();
    hide IntSpan, Decimal;
    var p := IntSpan(t, key).value.0;
    assert ReplaceIntText(t, key, 1)[p] == '1' && ReplaceIntText(t, key, 2)[p] == '2';
  }

  lemma StringWritten(t: string, key: string)
    ensures (forall v :: ReplaceStringText(t, key, v) == t) <==> StringSpan(t, key).None?
  {
    hide StringSpan;
    if StringSpan(t, key).Some? {
      ReplacedAt(t, key, StringSpan(t, key).value.0, "x");
      ReplacedAt(t, key, StringSpan(t, key).value.0, "y");
    }
  }

  /** A colon is found wherever a string or key ahead of some member ends in the quoted key. */
  lemma ColonReached(ms: seq<Member>, i: nat, key: string)
    requires i < |ms| && WellFormedMembers(ms) && PlainKey(key) && !CleanMembers(ms[..i], key)
    ensures exists c :: Reaches(Print(Obj(ms)), key, c)
  {
    hide Print, Lead, Find, PlainKey, WellFormed, CleanMembers, MemberText, Quoted, At;
    var t := Print(Obj(ms));
    LeadFree(ms, i, key);
    KeyStands(ms, i);
    CharAt(t, OwnColon(ms, i), ':');
    FindIsFirst(t, Quoted(key), 0);
    var k := Find(t, Quoted(key), 0).value;
    FindIsFirst(t, ":", k);
    assert Reaches(t, key, Find(t, ":", k).value);
  }

  // ---------- a key that ends in another key ----------

  /** Where the first member not clean of the key is one whose own key ends in it, the edits start
      there, inside that key, and find that member's colon. */
  lemma InsideKey(ms: seq<Member>, j: nat, key: string)
    requires j < |ms| && WellFormedMembers(ms) && PlainKey(key)
    requires EndsQuoted(ms[j].key, key) && CleanMembers(ms[..j], key)
    ensures var t, k := Print(Obj(ms)), OwnColon(ms, j) - |key| - 2;
            KeyOffset(ms, j) <= k && At(t, k, Quoted(key))
            && Find(t, Quoted(key), 0) == Some(k) && Find(t, ":", k) == Some(OwnColon(ms, j))
  {
    hide Print, Lead, Find, PlainKey, WellFormed, CleanMembers, MemberText, FieldsTail, Quoted, At, EndsQuoted;
    var t, off := Print(Obj(ms)), KeyOffset(ms, j);
    var k := off + |ms[j].key| - |key|;
    KeyStands(ms, j);
    LeadFree(ms, j, key);
    TokenFirst(t, off, ms[j].key, key);
    FreeJoin(t, 0, off, k, Quoted(key));
    FindIs(t, Quoted(key), 0, k);
    FirstColon(t, k, key);
  }

  lemma KeyStands(ms: seq<Member>, j: nat)
    requires j < |ms| && WellFormedMembers(ms)
    ensures var t, off := Print(Obj(ms)), KeyOffset(ms, j);
            && OwnColon(ms, j) < |t| && At(t, off, Quoted(ms[j].key))
            && At(t, off + |ms[j].key| + 2, ":") && Escaped(ms[j].key)
            && Follow(t, off + |ms[j].key| + 2)
  {
    hide Print, Lead, WellFormed, MemberText, FieldsTail, Escaped;
    assert ms[j] in ms;
    Layout(ms, j);
    AtConcat(Print(Obj(ms)), KeyOffset(ms, j), Quoted(ms[j].key), ":");
    CharAt(Print(Obj(ms)), OwnColon(ms, j), ':');
  }

  lemma LeadFree(ms: seq<Member>, j: nat, key: string)
    requires j < |ms| && WellFormedMembers(ms) && PlainKey(key)
    ensures Free(Print(Obj(ms)), 0, KeyOffset(ms, j), Quoted(key)) <==> CleanMembers(ms[..j], key)
  {
    hide Print, Lead, PlainKey, WellFormed, CleanMembers, MemberText, FieldsTail, Quoted;
    var t := Print(Obj(ms));
    Layout(ms, j);
    AtPrefix(t, "{", Lead(ms[..j]));
    hide At;
    FreeNoQuote(t, 0, "{", key);
    FreeLead(t, 1, ms[..j], key);
    FreeJoin(t, 0, 1, KeyOffset(ms, j), Quoted(key));
  }

  lemma TokenFirst(t: string, i: nat, body: string, key: string)
    requires Escaped(body) && PlainKey(key) && At(t, i, Quoted(body)) && Follow(t, i + |body| + 2)
    requires EndsQuoted(body, key)
    ensures |body| >= |key| && At(t, i + |body| - |key|, Quoted(key)) && Free(t, i, i + |body| - |key|, Quoted(key))
  {
    hide At, PlainKey, Quoted, Escaped, Follow;
    TokenEnds(t, i, body, key);
    forall p | i <= p < i + |body| - |key|
      ensures !At(t, p, Quoted(key))
    {
      if At(t, p, Quoted(key)) {
        TokenMatch(t, i, body, key, p);
        assert false;
      }
    }
  }

  lemma FirstColon(t: string, k: nat, key: string)
    requires PlainKey(key) && At(t, k, Quoted(key)) && At(t, k + |key| + 2, ":")
    ensures Find(t, ":", k) == Some(k + |key| + 2)
  {
    NoColon(key);
    AtConcat(t, k, Quoted(key), ":");
    hide Find, At, PlainKey;
    ColonOf(t, k, key);
  }

  /** Which occurrence comes first does not settle what becomes of one object. With members `"z\"key":v`
      and `"key":v` in a row the removal starts inside the first key, takes out text that is not the
      member's, and still leaves the object without that member, whatever `z` and `v` are. */
  lemma RemovedByLuck(ms: seq<Member>, j: nat, key: string)
    requires j + 1 < |ms| && WellFormedMembers(ms) && PlainKey(key)
    requires EndsQuoted(ms[j].key, key) && CleanMembers(ms[..j], key) && ms[j + 1] == Member(key, ms[j].value)
    ensures RemoveText(Print(Obj(ms)), key) == Print(Obj(Dropped(ms, j + 1)))
    ensures !Locates(ms, j + 1, key)
  {
    hide Print, Lead, Find, PlainKey, WellFormed, CleanMembers, EndsQuoted, MemberText, FieldsTail, RemoveText,
      ValueEnd, At;
    var t, k, e := Print(Obj(ms)), OwnColon(ms, j) - |key| - 2, KeyOffset(ms, j) + |MemberText(ms[j])|;
    InsideKey(ms, j, key);
    OwnEnd(ms, j);
    CommaBehind(ms, j);
    CutFrom(t, key, k, OwnColon(ms, j), e);
    assert ms[..j + 1] == ms[..j] + [ms[j]];
    LeadSnoc(ms[..j], ms[j]);
    TwoInARow(ms, j, key);
  }

  lemma CutFrom(t: string, key: string, k: nat, c: nat, e: nat)
    requires Find(t, Quoted(key), 0) == Some(k) && Find(t, ":", k) == Some(c) && c < |t|
    requires ValueEnd(t, c + 1, false, false, 0, 0) == e && e < |t| && t[e] == ','
    ensures RemoveText(t, key) == t[..k] + t[e + 1..]
  {
    hide Find, ValueEnd, RemoveText, BackOverSpaces;
    RemovedSpan(t, key, k, e + 1);
  }

  lemma KeyEnding(m: Member, key: string)
    requires EndsQuoted(m.key, key)
    ensures var n := |m.key| - |key|;
            0 <= n <= |MemberText(m)| && MemberText(m) == MemberText(m)[..n] + MemberText(Member(key, m.value))
  {
    hide Print, Quoted, EndsQuoted;
    QuotedEnding(m.key, key);
    Reassociate(Quoted(m.key)[..|m.key| - |key|], Quoted(key), Print(m.value));
  }

  lemma QuotedEnding(body: string, key: string)
    requires EndsQuoted(body, key)
    ensures var n := |body| - |key|; 0 <= n <= |Quoted(body)| && Quoted(body) == Quoted(body)[..n] + Quoted(key)
  {
    var n := |body| - |key|;
    if n > 0 {
      assert body == body[..n - 1] + body[n - 1..];
    }
  }

  lemma Reassociate(h: string, q: string, p: string)
    ensures h + q + ":" + p == h + (q + ":" + p) && (h + q + ":" + p)[..|h|] == h
  {
  }

  lemma TwoInARow(ms: seq<Member>, j: nat, key: string)
    requires j + 1 < |ms| && ms[j + 1] == Member(key, ms[j].value) && EndsQuoted(ms[j].key, key)
    ensures var t, e := Print(Obj(ms)), KeyOffset(ms, j) + |MemberText(ms[j])|;
            var k := KeyOffset(ms, j) + |ms[j].key| - |key|;
            0 <= k <= e + 1 <= |t| && t[..k] + t[e + 1..] == Print(Obj(Dropped(ms, j + 1)))
  {
    hide Print, MemberText, FieldsTail, Lead, EndsQuoted;
    var a, b := ms[..j], ms[j + 2..];
    var d := Dropped(ms, j + 1);
    assert ms[..j + 1] == a + [ms[j]] && d[..j] == a && d[j] == ms[j] && d[j + 1..] == b;
    PrintAround(ms, j + 1);
    PrintAround(d, j);
    LeadSnoc(a, ms[j]);
    KeyEnding(ms[j], key);
    hide *;
    var n := |ms[j].key| - |key|;
    CutBetween("{" + Lead(a), MemberText(ms[j])[..n], MemberText(ms[j + 1]), FieldsTail(b) + "}", Print(Obj(ms)));
  }

  lemma CutBetween(p: string, h: string, m: string, z: string, t: string)
    requires t == p + (h + m + ",") + m + z
    ensures var k, e := |p| + |h|, |p| + |h| + |m| + 1; e <= |t| && t[..k] + t[e..] == p + (h + m) + z
  {
  }

  // ---------- removing one member ----------

  predicate Scalar(v: Json) {
    !v.Arr? && !v.Obj?
  }

  /** The member before has a key that ends in this one's, the same value, and is the first that is not
      clean of the key. */
  ghost predicate Lucky(ms: seq<Member>, i: nat, key: string)
    requires i < |ms|
  {
    i > 0 && EndsQuoted(ms[i - 1].key, key) && ms[i - 1].value == ms[i].value && CleanMembers(ms[..i - 1], key)
  }

  /** A quote in an escaped body stands behind a backslash. */
  lemma {:induction false} QuoteIsEscaped(body: string, m: nat)
    requires Escaped(body) && m < |body| && body[m] == '"'
    ensures m > 0 && body[m - 1] == '\\'
    decreases |body|
  {
    if body[0] == '\\' {
      if m > 1 {
        QuoteIsEscaped(body[2..], m - 2);
      }
    } else {
      QuoteIsEscaped(body[1..], m - 1);
    }
  }

  lemma ScalarChars(v: Json)
    requires WellFormed(v)
    ensures var p := Print(v);
            && p != ""
            && (v.Str? <==> p[|p| - 1] == '"')
            && (!Scalar(v) <==> p[|p| - 1] == ']' || p[|p| - 1] == '}')
            && (Scalar(v) && !v.Str? ==> ':' !in p)
  {
    match v
    case Num(digits) =>
      assert NumberChar(digits[|digits| - 1]);
      assert forall c | c in digits :: NumberChar(c);
    case _ =>
  }

  /** Where a shorter string token ends at the same place, its opening quote is an escaped one. */
  lemma ShorterBody(t: string, s: nat, x: string, y: string)
    requires Escaped(y) && |x| < |y| && |y| + 2 < s
    requires At(t, s - |x| - 2, Quoted(x)) && At(t, s - |y| - 2, Quoted(y))
    ensures t[s - |x| - 3] == '\\'
  {
    hide At, Escaped;
    var m := |y| - |x| - 1;
    OpensQuoted(t, s - |x| - 2, x);
    BodyOf(t, s - |y| - 2, y);
    BodyAt(t, s - |y| - 1, y);
    QuoteIsEscaped(y, m);
    assert y[m - 1] == t[s - |x| - 3];
  }

  lemma BodyOf(t: string, i: nat, y: string)
    requires At(t, i, Quoted(y))
    ensures At(t, i + 1, y)
  {
    Concat3("\"", y, "\"");
    AtConcat(t, i, "\"", y + "\"");
    AtConcat(t, i + 1, y, "\"");
  }

  lemma BodyAt(t: string, i: nat, y: string)
    requires At(t, i, y)
    ensures i + |y| <= |t| && forall j | 0 <= j < |y| :: y[j] == t[i + j]
  {
    assert y == t[i..i + |y|];
  }

  lemma NoColonInside(t: string, s: nat, p: string, q: string)
    requires |p| <= s && |q| < s && At(t, s - |p|, p) && ':' !in p && s <= |t| && t[s - |q| - 1] == ':'
    ensures |p| <= |q|
  {
    BodyAt(t, s - |p|, p);
    hide At;
    assert forall j | 0 <= j < |p| :: p[j] in p && p[j] != ':';
  }

  lemma ScalarText(v: Json, w: Json)
    requires WellFormed(v) && WellFormed(w) && Scalar(v) && Scalar(w) && !v.Str? && !w.Str? && Print(v) == Print(w)
    ensures v == w
  {
    assert v.Num? ==> NumberChar(v.digits[0]);
    assert w.Num? ==> NumberChar(w.digits[0]);
  }

  /** A scalar and a value that end at the same place, each behind a colon, are the same value. */
  lemma SameEnd(t: string, s: nat, v: Json, w: Json)
    requires WellFormed(v) && WellFormed(w) && Scalar(v) && |Print(v)| < s <= |t| && |Print(w)| < s
    requires At(t, s - |Print(v)|, Print(v)) && At(t, s - |Print(w)|, Print(w))
    requires t[s - |Print(v)| - 1] == t[s - |Print(w)| - 1] == ':'
    ensures v == w
  {
    hide WellFormed, Print, At;
    SameKind(t, s, v, w);
    if v.Str? {
      SameString(t, s, v, w);
    } else {
      SameWord(t, s, v, w);
    }
  }

  lemma SameWord(t: string, s: nat, v: Json, w: Json)
    requires WellFormed(v) && WellFormed(w) && Scalar(v) && Scalar(w) && !v.Str? && !w.Str?
    requires |Print(v)| < s <= |t| && |Print(w)| < s
    requires At(t, s - |Print(v)|, Print(v)) && At(t, s - |Print(w)|, Print(w))
    requires t[s - |Print(v)| - 1] == t[s - |Print(w)| - 1] == ':'
    ensures v == w
  {
    hide WellFormed, Print, At;
    ScalarChars(v);
    ScalarChars(w);
    NoColonInside(t, s, Print(v), Print(w));
    NoColonInside(t, s, Print(w), Print(v));
    SamePart(t, s - |Print(v)|, Print(v), Print(w));
    ScalarText(v, w);
  }

  lemma SamePart(t: string, i: nat, p: string, q: string)
    requires At(t, i, p) && At(t, i, q) && |p| == |q|
    ensures p == q
  {
  }

  lemma SameKind(t: string, s: nat, v: Json, w: Json)
    requires WellFormed(v) && WellFormed(w) && Scalar(v) && |Print(v)| <= s <= |t| && |Print(w)| <= s
    requires At(t, s - |Print(v)|, Print(v)) && At(t, s - |Print(w)|, Print(w))
    ensures Scalar(w) && (v.Str? <==> w.Str?)
  {
    hide WellFormed, Print, At;
    ScalarChars(v);
    ScalarChars(w);
    BodyAt(t, s - |Print(v)|, Print(v));
    BodyAt(t, s - |Print(w)|, Print(w));
    assert Print(v)[|Print(v)| - 1] == t[s - 1] == Print(w)[|Print(w)| - 1];
  }

  lemma SameString(t: string, s: nat, v: Json, w: Json)
    requires WellFormed(v) && WellFormed(w) && v.Str? && w.Str? && |Print(v)| < s <= |t| && |Print(w)| < s
    requires At(t, s - |Print(v)|, Print(v)) && At(t, s - |Print(w)|, Print(w))
    requires t[s - |Print(v)| - 1] == t[s - |Print(w)| - 1] == ':'
    ensures v == w
  {
    var x, y := v.body, w.body;
    if |x| < |y| {
      ShorterBody(t, s, x, y);
    } else if |y| < |x| {
      ShorterBody(t, s, y, x);
    } else {
      SamePart(t, s - |x| - 2, Quoted(x), Quoted(y));
      SameQuoted(x, y);
    }
  }

  // the removal cuts as many characters as the member and a comma take, but from an earlier place

  /** A cut at `b` that gives what the cut of `n` characters at `s` gives takes as many, and the text
      from `b` on repeats itself after `n` characters. */
  lemma SameCut(t: string, b: nat, e: nat, s: nat, n: nat)
    requires b <= s && s + n <= |t| && b <= e <= |t| && t[..b] + t[e..] == t[..s] + t[s + n..]
    ensures e == b + n && forall x | b <= x < s :: t[x] == t[x + n]
  {
    var r := t[..b] + t[e..];
    assert |r| == |t| - (e - b) == |t| - n;
    forall x | b <= x < s
      ensures t[x] == t[x + n]
    {
      assert r[x] == t[e..][x - b] == t[x + n];
      assert r[x] == t[..s][x];
    }
  }

  /** A removal cuts from the first occurrence or before it. */
  lemma RemovalCuts(t: string, key: string, k: nat, c: nat) returns (b: nat, e: nat)
    requires Find(t, Quoted(key), 0) == Some(k) && Find(t, ":", k) == Some(c) && c < |t|
    ensures b <= k && b <= e <= |t| && RemoveText(t, key) == t[..b] + t[e..]
  {
    hide Find, ValueEnd, BackOverSpaces;
    b, e := RemoveSpan(t, key).value.0, RemoveSpan(t, key).value.1;
  }

  /** Without the i-th member, not the first, the text is cut from the comma before it. */
  lemma DroppedText(ms: seq<Member>, i: nat)
    requires 0 < i < |ms|
    ensures var t, off := Print(Obj(ms)), KeyOffset(ms, i);
            && 1 < off && off + |MemberText(ms[i])| <= |t| && t[off - 1] == ','
            && Print(Obj(Dropped(ms, i))) == t[..off - 1] + t[off + |MemberText(ms[i])|..]
  {
    hide MemberText;
    var a, b := ms[..i], ms[i + 1..];
    PrintAround(ms, i);
    LeadDropsComma(a);
    TailSplit(a, b);
    FieldsAndTail(a, b);
    hide FieldsTail, Lead, Fields;
    CutComma("{" + Fields(a), MemberText(ms[i]), FieldsTail(b) + "}", Print(Obj(ms)));
  }

  lemma FieldsAndTail(a: seq<Member>, b: seq<Member>)
    requires a != []
    ensures Print(Obj(a + b)) == "{" + Fields(a) + (FieldsTail(b) + "}")
  {
    hide MemberText;
    assert (a + b)[1..] == a[1..] + b;
    TailSplit(a[1..], b);
    Concat3(MemberText(a[0]), FieldsTail(a[1..]), FieldsTail(b));
    Concat3("{" + Fields(a), FieldsTail(b), "}");
    Concat3("{", Fields(a), FieldsTail(b));
  }

  lemma CutComma(p: string, m: string, z: string, t: string)
    requires t == p + "," + m + z
    ensures t[|p|] == ',' && t[..|p|] + t[|p| + 1 + |m|..] == p + z
  {
  }

  /** The text ahead of a member's comma. */
  lemma MemberBefore(ms: seq<Member>, i: nat)
    requires 0 < i < |ms|
    ensures KeyOffset(ms, i - 1) + |MemberText(ms[i - 1])| + 1 == KeyOffset(ms, i)
  {
    assert ms[..i] == ms[..i - 1] + [ms[i - 1]];
    LeadSnoc(ms[..i - 1], ms[i - 1]);
  }

  // ---------- where the earlier occurrence is ----------

  /** From the first occurrence, with its colon, up to the member's comma, the characters are those one
      member and comma later. */
  ghost predicate Repeating(ms: seq<Member>, i: nat, key: string, k: nat, c: nat)
    requires i < |ms|
  {
    var t, off, n := Print(Obj(ms)), KeyOffset(ms, i), |MemberText(ms[i])| + 1;
    && Find(t, Quoted(key), 0) == Some(k) && Find(t, ":", k) == Some(c) && At(t, k, Quoted(key))
    && k + |key| + 2 <= off - 1 && off - 1 + n <= |t| && t[off - 1] == ','
    && forall x | k <= x < off - 1 :: t[x] == t[x + n]
  }

  /** A removal that is right although it starts at an earlier occurrence meets a repeating text. */
  lemma Repeats(ms: seq<Member>, i: nat, key: string) returns (k: nat, c: nat)
    requires 0 < i < |ms| && PlainKey(key) && ms[i].key == key && !Locates(ms, i, key)
    requires RemoveText(Print(Obj(ms)), key) == Print(Obj(Dropped(ms, i)))
    ensures Repeating(ms, i, key, k, c)
  {
    hide Print, Find, PlainKey, Lead, MemberText, RemoveText, Dropped, At, Quoted;
    var t, off := Print(Obj(ms)), KeyOffset(ms, i);
    k, c := FirstFound(ms, i, key);
    DroppedText(ms, i);
    var b, e := RemovalCuts(t, key, k, c);
    NotAtComma(t, key, k, off - 1);
    SameCut(t, b, e, off - 1, |MemberText(ms[i])| + 1);
  }

  /** A quoted key that ends at a comma or behind it ends there. */
  lemma NotAtComma(t: string, key: string, k: nat, s: nat)
    requires PlainKey(key) && At(t, k, Quoted(key)) && s < |t| && t[s] == ',' && k + |key| + 1 <= s + 1
    ensures k + |key| + 2 <= s
  {
    QuotedChars(t, k, key);
  }

  lemma Moved(t: string, k: nat, n: nat, q: string)
    requires At(t, k, q) && k + |q| + n <= |t| && forall x | k <= x < k + |q| :: t[x] == t[x + n]
    ensures At(t, k + n, q)
  {
    assert t[k + n..k + n + |q|] == t[k..k + |q|];
  }

  lemma MovedBack(t: string, k: nat, n: nat, q: string)
    requires At(t, k + n, q) && forall x | k <= x < k + |q| :: t[x] == t[x + n]
    ensures At(t, k, q)
  {
    assert t[k + n..k + n + |q|] == t[k..k + |q|];
  }

  /** An occurrence in a member with a scalar value is the member's key, or ends the value. */
  lemma InMember(ms: seq<Member>, i: nat, key: string, p: nat)
    requires i < |ms| && WellFormedMembers(ms) && PlainKey(key) && ms[i].key == key && Scalar(ms[i].value)
    requires KeyOffset(ms, i) < p && At(Print(Obj(ms)), p, Quoted(key))
    requires p + |key| + 2 <= KeyOffset(ms, i) + |MemberText(ms[i])|
    ensures p + |key| + 2 == KeyOffset(ms, i) + |MemberText(ms[i])|
  {
    hide Print, PlainKey, WellFormed, At, Lead, MemberText, Quoted, KeyOffset;
    var t, off, v := Print(Obj(ms)), KeyOffset(ms, i), ms[i].value;
    assert ms[i] in ms;
    KeyStands(ms, i);
    ValueStart(ms, i);
    QuotedChars(t, p, key);
    if p < off + |key| + 2 {
      TokenMatch(t, off, key, key, p);
      assert false;
    } else {
      CharAt(t, OwnColon(ms, i), ':');
      EndChar(ms, i);
      assert p > OwnColon(ms, i);
      BehindColon(t, OwnColon(ms, i) + 1, v, key, p, KeyOffset(ms, i) + |MemberText(ms[i])|);
    }
  }

  lemma BehindColon(t: string, o: nat, v: Json, key: string, p: nat, end: nat)
    requires WellFormed(v) && Scalar(v) && At(t, o, Print(v)) && PlainKey(key) && At(t, p, Quoted(key))
    requires end == o + |Print(v)| < |t| && o <= p && p + |key| + 2 <= end && (t[end] == ',' || t[end] == '}')
    ensures p + |key| + 2 == end
  {
    hide PlainKey, At;
    QuotedChars(t, p, key);
    BodyAt(t, o, Print(v));
    assert t[p] == Print(v)[p - o] == '"';
    if v.Str? {
      TokenMatch(t, o, v.body, key, p);
    } else {
      QuoteFree(v);
    }
  }

  lemma QuoteFree(v: Json)
    requires WellFormed(v) && Scalar(v) && !v.Str?
    ensures '"' !in Print(v)
  {
    assert v.Num? ==> forall c | c in v.digits :: NumberChar(c);
  }

  lemma EndChar(ms: seq<Member>, i: nat)
    requires i < |ms|
    ensures var t, e := Print(Obj(ms)), KeyOffset(ms, i) + |MemberText(ms[i])|;
            e < |t| && (t[e] == ',' || t[e] == '}')
  {
    hide Print, Lead, FieldsTail, MemberText;
    var t, e := Print(Obj(ms)), KeyOffset(ms, i) + |MemberText(ms[i])|;
    Layout(ms, i);
    NextChar(ms[i + 1..], t[e..]);
    assert t[e] == t[e..][0];
  }

  /** Both keys end at the same place: the member's is the end of the other one, behind a backslash. */
  lemma KeysEnd(t: string, p: nat, a: string, key: string)
    requires |a| + 2 <= p && |key| + 2 < p && Escaped(a) && PlainKey(key)
    requires At(t, p - |a| - 2, Quoted(a)) && At(t, p - |key| - 2, Quoted(key))
    ensures a == key || (EndsQuoted(a, key) && |a| > |key| && t[p - |key| - 3] == '\\')
  {
    hide At, Escaped, PlainKey, Quoted, EndsQuoted;
    OpensQuoted(t, p - |a| - 2, a);
    if |a| > |key| {
      LongerKey(t, p, a, key);
    } else if |a| == |key| {
      QuotedLength(a);
      QuotedLength(key);
      SamePart(t, p - |a| - 2, Quoted(a), Quoted(key));
      SameQuoted(a, key);
    } else {
      QuotedChars(t, p - |key| - 2, key);
    }
  }

  lemma SameQuoted(a: string, b: string)
    requires Quoted(a) == Quoted(b)
    ensures a == b
  {
    assert a == Quoted(a)[1..|a| + 1] && b == Quoted(b)[1..|b| + 1];
    assert |Quoted(a)| == |Quoted(b)|;
  }

  lemma LongerKey(t: string, p: nat, a: string, key: string)
    requires |a| + 2 <= p && |a| > |key| && Escaped(a)
    requires At(t, p - |a| - 2, Quoted(a)) && At(t, p - |key| - 2, Quoted(key))
    ensures EndsQuoted(a, key) && t[p - |key| - 3] == '\\'
  {
    hide At, Escaped, Quoted;
    var n := |a| - |key|;
    BodyOf(t, p - |a| - 2, a);
    BodyAt(t, p - |a| - 1, a);
    BodyOf(t, p - |key| - 2, key);
    BodyAt(t, p - |key| - 1, key);
    OpensQuoted(t, p - |key| - 2, key);
    assert t[p - |key| - 2] == a[n - 1];
    QuoteIsEscaped(a, n - 1);
    assert a[n - 1..] == "\"" + key;
  }

  /** An earlier occurrence that moves into the member's value is a string right before the member: the
      colon found is the member's own, and the removal takes too much. */
  lemma NotIntoValue(ms: seq<Member>, i: nat, key: string, k: nat, c: nat)
    requires 0 < i < |ms| && WellFormedMembers(ms) && PlainKey(key) && ms[i].key == key && Scalar(ms[i].value)
    requires !Locates(ms, i, key) && RemoveText(Print(Obj(ms)), key) == Print(Obj(Dropped(ms, i)))
    requires Repeating(ms, i, key, k, c)
    ensures k + |MemberText(ms[i])| + 1 <= KeyOffset(ms, i)
  {
    hide Print, Find, PlainKey, WellFormed, At, Lead, MemberText, Quoted, KeyOffset, RemoveText, Dropped;
    var t, off, n := Print(Obj(ms)), KeyOffset(ms, i), |MemberText(ms[i])| + 1;
    if k + n > off {
      QuotedLength(key);
      Moved(t, k, n, Quoted(key));
      InMember(ms, i, key, k + n);
      var k', c' := FirstFound(ms, i, key);
      assert c == OwnColon(ms, i);
      RemovesTooMuch(ms, i, key);
    }
  }

  lemma MemberEnd(t: string, s: nat, m: Member)
    requires |MemberText(m)| <= s && At(t, s - |MemberText(m)|, MemberText(m))
    ensures var p := s - |Print(m.value)| - 1;
            && |m.key| + 2 <= p && s - |MemberText(m)| == p - |m.key| - 2
            && At(t, p + 1, Print(m.value)) && p < |t| && t[p] == ':' && At(t, p - |m.key| - 2, Quoted(m.key))
  {
    var i := s - |MemberText(m)|;
    QuotedLength(m.key);
    AtConcat(t, i, Quoted(m.key) + ":", Print(m.value));
    AtConcat(t, i, Quoted(m.key), ":");
    hide Print, Quoted, At;
    CharAt(t, i + |m.key| + 2, ':');
  }

  /** Two members that end at the same place, the one with a scalar value and a plain key: then the
      values are the same, and so are the keys or one is the end of the other. */
  lemma SameMember(t: string, s: nat, m: Member, w: Member)
    requires WellFormed(m.value) && Scalar(m.value) && PlainKey(m.key) && WellFormed(w.value) && Escaped(w.key)
    requires |MemberText(m)| < s <= |t| && At(t, s - |MemberText(m)|, MemberText(m))
    requires |MemberText(w)| < s && At(t, s - |MemberText(w)|, MemberText(w))
    ensures m.value == w.value
    ensures w.key == m.key ||
            (EndsQuoted(w.key, m.key) && |MemberText(w)| >= |MemberText(m)| && t[s - |MemberText(m)| - 1] == '\\')
  {
    hide WellFormed, Print, At, PlainKey, Escaped, MemberText, EndsQuoted, Quoted, Scalar;
    MemberEnd(t, s, m);
    MemberEnd(t, s, w);
    SameEnd(t, s, m.value, w.value);
    KeysEnd(t, s - |Print(m.value)| - 1, w.key, m.key);
  }

  /** So the earlier occurrence is the end of the key right before the member. */
  lemma LuckOnly(ms: seq<Member>, i: nat, key: string)
    requires i < |ms| && WellFormedMembers(ms) && PlainKey(key) && ms[i].key == key && Scalar(ms[i].value)
    requires UniqueKeys(ms) && !Locates(ms, i, key)
    requires RemoveText(Print(Obj(ms)), key) == Print(Obj(Dropped(ms, i)))
    ensures Lucky(ms, i, key)
  {
    hide Print, PlainKey, WellFormed, At, Lead, MemberText, RemoveText, Dropped, Repeating, CleanMembers, EndsQuoted,
      Escaped, Scalar, Locates;
    NotTheFirst(ms, i, key);
    var k, c := Repeats(ms, i, key);
    NotIntoValue(ms, i, key, k, c);
    MemberBefore(ms, i);
    MemberStands(ms, i - 1);
    assert ms[i] in ms && ms[i - 1] in ms;
    CopyBefore(ms, i, key, k, c);
    SameMember(Print(Obj(ms)), KeyOffset(ms, i) - 1, ms[i], ms[i - 1]);
    CleanAhead(ms, i, key, k, c);
  }

  lemma NotTheFirst(ms: seq<Member>, i: nat, key: string)
    requires i < |ms| && PlainKey(key) && ms[i].key == key && !Locates(ms, i, key)
    ensures i > 0
  {
    var k, c := FirstFound(ms, i, key);
  }

  lemma MemberStands(ms: seq<Member>, i: nat)
    requires i < |ms|
    ensures At(Print(Obj(ms)), KeyOffset(ms, i), MemberText(ms[i])) && Print(Obj(ms))[0] == '{'
  {
    hide Lead, MemberText, FieldsTail;
    PrintAround(ms, i);
    Around("{" + Lead(ms[..i]), MemberText(ms[i]), FieldsTail(ms[i + 1..]) + "}");
    Concat3("{" + Lead(ms[..i]) + MemberText(ms[i]), FieldsTail(ms[i + 1..]), "}");
  }

  /** The member's own text stands right before its comma, and also behind a comma if the earlier
      occurrence is further ahead. */
  lemma CopyBefore(ms: seq<Member>, i: nat, key: string, k: nat, c: nat)
    requires 0 < i < |ms| && Repeating(ms, i, key, k, c) && k + |MemberText(ms[i])| + 1 <= KeyOffset(ms, i)
    ensures var t, s, n := Print(Obj(ms)), KeyOffset(ms, i) - 1, |MemberText(ms[i])|;
            && n < s <= |t| && At(t, s - n, MemberText(ms[i])) && k <= s - n
            && (k == s - n || t[s - n - 1] == ',')
  {
    hide Print, Lead, MemberText, FieldsTail, Find, Quoted;
    var t, s, n := Print(Obj(ms)), KeyOffset(ms, i) - 1, |MemberText(ms[i])|;
    MemberStands(ms, i);
    OpensQuoted(t, k, key);
    assert t[0] != '"';
    MovedBack(t, s - n, n + 1, MemberText(ms[i]));
    assert k < s - n ==> t[s - n - 1] == t[s];
  }

  lemma CleanAhead(ms: seq<Member>, i: nat, key: string, k: nat, c: nat)
    requires 0 < i < |ms| && WellFormedMembers(ms) && PlainKey(key) && Repeating(ms, i, key, k, c)
    requires KeyOffset(ms, i - 1) <= k
    ensures CleanMembers(ms[..i - 1], key)
  {
    hide Print, PlainKey, WellFormed, Lead, MemberText, CleanMembers, Find;
    LeadFree(ms, i - 1, key);
    FindIsFirst(Print(Obj(ms)), Quoted(key), 0);
  }

  /** Removing a member that holds a scalar, from an object whose keys are all different, is right exactly
      when the first occurrence of the quoted key is its own, or by luck: when the key right before it
      ends in that quoted key, nothing before does, and the two members have the same value. */
  lemma RemoveScalarExactly(ms: seq<Member>, i: nat, key: string)
    requires i < |ms| && WellFormedMembers(ms) && UniqueKeys(ms) && PlainKey(key) && ms[i].key == key
    requires Scalar(ms[i].value)
    ensures RemoveText(Print(Obj(ms)), key) == Print(Obj(Dropped(ms, i)))
            <==> Locates(ms, i, key) || Lucky(ms, i, key)
  {
    hide Print, PlainKey, WellFormed, RemoveText, CleanMembers, EndsQuoted, Locates, Scalar, UniqueKeys;
    if Locates(ms, i, key) {
      NoColon(key);
      RemoveRefines(ms, i, key);
    } else if Lucky(ms, i, key) {
      RemovedByLuck(ms, i - 1, key);
    } else if RemoveText(Print(Obj(ms)), key) == Print(Obj(Dropped(ms, i))) {
      LuckOnly(ms, i, key);
    }
  }

  // ---------- a list that is removed by luck ----------

  /** A list of two strings, the second holding a colon and an escaped quote. */
  const LIST := "[\"P\",\"K\",\"a:b\\\"\"]"
  const TWO_LISTS := "{\"X\":" + LIST + ",\"K\":" + LIST + "}"

  lemma ListFound()
    ensures Find(TWO_LISTS, Quoted("K"), 0) == Some(10) && Find(TWO_LISTS, ":", 10) == Some(16)
  {
    var t := TWO_LISTS;
    assert t[..17] == "{\"X\":[\"P\",\"K\",\"a:";
    hide Find;
    assert forall p | 0 <= p < 17 :: t[p] == t[..17][p];
    assert Quoted("K") == "\"K\"";
    forall p | 0 <= p < 10
      ensures !At(t, p, Quoted("K"))
    {
      assert t[p] != '"' || t[p + 1] != 'K';
      NotThere(t, p);
    }
    assert t[10..13] == Quoted("K");
    FindIs(t, Quoted("K"), 0, 10);
    forall p | 10 <= p < 16
      ensures !At(t, p, ":")
    {
      CharAt(t, p, ':');
    }
    CharAt(t, 16, ':');
    FindIs(t, ":", 10, 16);
  }

  lemma NotThere(t: string, p: nat)
    requires p + 1 < |t| && (t[p] != '"' || t[p + 1] != 'K')
    ensures !At(t, p, Quoted("K"))
  {
    if At(t, p, Quoted("K")) {
      QuotedChars(t, p, "K");
      assert false;
    }
  }

  /** The scan starts inside the string behind the colon and stops at the comma in the second list. */
  lemma ListScanned()
    ensures |TWO_LISTS| > 31 && TWO_LISTS[31] == ',' && ValueEnd(TWO_LISTS, 17, false, false, 0, 0) == 31
  {
    var t := TWO_LISTS;
    assert t[17..32] == "b\\\"\"],\"K\":[\"P\",";
    ListStates(t);
  }

  lemma ListStates(t: string)
    requires |t| > 32 && t[17..32] == "b\\\"\"],\"K\":[\"P\","
    ensures t[31] == ',' && ValueEnd(t, 17, false, false, 0, 0) == 31
  {
    hide ValueEnd, At;
    var s := t[17..32];
    PartAt(t, 17, s, 0, "b\\");
    PartAt(t, 17, s, 2, Quoted(""));
    PartAt(t, 17, s, 6, Quoted("K"));
    PartAt(t, 17, s, 9, ":");
    PartAt(t, 17, s, 11, Quoted("P"));
    assert t[21] == s[4] && t[22] == s[5] && t[27] == s[10] && t[31] == s[14];
    ScanInert(t, 17, "b\\", 0, 0);
    ScanQuoted(t, 19, "", 0, 0);
    CloseList(t, 21);
    ScanQuoted(t, 23, "K", 0, -1);
    ScanInert(t, 26, ":", 0, -1);
    OpenList(t, 27);
    ScanQuoted(t, 28, "P", 0, 0);
    StopAtComma(t, 31);
  }

  lemma PartAt(t: string, i: nat, s: string, j: nat, u: string)
    requires i + |s| <= |t| && t[i..i + |s|] == s && j + |u| <= |s| && s[j..j + |u|] == u
    ensures At(t, i + j, u)
  {
    forall x | 0 <= x < |u|
      ensures t[i + j..i + j + |u|][x] == u[x]
    {
      assert u[x] == s[j..j + |u|][x] == s[j + x] == t[i..i + |s|][j + x] == t[i + j + x];
    }
  }

  lemma CloseList(t: string, i: nat)
    requires i + 1 < |t| && t[i] == ']' && t[i + 1] == ','
    ensures ValueEnd(t, i, false, false, 0, 0) == ValueEnd(t, i + 2, false, false, 0, -1)
  {
  }

  lemma OpenList(t: string, i: nat)
    requires i < |t| && t[i] == '['
    ensures ValueEnd(t, i, false, false, 0, -1) == ValueEnd(t, i + 1, false, false, 0, 0)
  {
  }

  lemma StopAtComma(t: string, i: nat)
    requires i < |t| && t[i] == ','
    ensures ValueEnd(t, i, false, false, 0, 0) == i
  {
  }

  /** For a list even less follows: where a string in it holds a colon, the scan of the removal gets out
      of step, and what it takes out of two equal lists is still as long as a member. */
  lemma NestedLuck()
    ensures var v := Arr([Str("P"), Str("K"), Str("a:b\\\"")]);
            var ms := [Member("X", v), Member("K", v)];
            && WellFormedMembers(ms) && UniqueKeys(ms)
            && RemoveText(Print(Obj(ms)), "K") == Print(Obj(Dropped(ms, 1)))
            && !Locates(ms, 1, "K") && !Lucky(ms, 1, "K")
  {
    ListFound();
    ListScanned();
    hide Find, ValueEnd;
    CutFrom(TWO_LISTS, "K", 10, 16, 31);
    assert TWO_LISTS[..10] + TWO_LISTS[32..] == "{\"X\":" + LIST + "}";
    ListPrinted();
  }

  lemma ListPrinted()
    ensures var v := Arr([Str("P"), Str("K"), Str("a:b\\\"")]);
            var ms := [Member("X", v), Member("K", v)];
            && WellFormedMembers(ms) && Print(Obj(ms)) == TWO_LISTS
            && Print(Obj(Dropped(ms, 1))) == "{\"X\":" + LIST + "}"
            && KeyOffset(ms, 1) > 10
  {
    hide Print, WellFormed, MemberText, Dropped, KeyOffset;
    var v := Arr([Str("P"), Str("K"), Str("a:b\\\"")]);
    OneList();
    TwoPrinted(Member("X", v), Member("K", v));
    ShortMember("X", v);
    ShortMember("K", v);
    OneLetter();
    TwoTexts(LIST);
  }

  lemma OneLetter()
    ensures Escaped("X") && Escaped("K")
  {
  }

  lemma TwoTexts(l: string)
    ensures "{" + ("\"X\":" + l) + "," + ("\"K\":" + l) + "}" == "{\"X\":" + l + ",\"K\":" + l + "}"
    ensures "{" + ("\"X\":" + l) + "}" == "{\"X\":" + l + "}"
  {
  }

  lemma ShortMember(k: string, v: Json)
    requires k == "X" || k == "K"
    ensures MemberText(Member(k, v)) == (if k == "X" then "\"X\":" else "\"K\":") + Print(v)
  {
    hide Print;
    assert Quoted("X") + ":" == "\"X\":" && Quoted("K") + ":" == "\"K\":";
  }

  lemma OneList()
    ensures var v := Arr([Str("P"), Str("K"), Str("a:b\\\"")]);
            WellFormed(v) && Print(v) == LIST
  {
    hide Print, Escaped, Items, ItemsTail;
    var a, b, c := Str("P"), Str("K"), Str("a:b\\\"");
    ThreePrinted(a, b, c);
    PrintedQuoted("P");
    PrintedQuoted("K");
    PrintedQuoted("a:b\\\"");
    LastEscaped();
  }

  lemma LastEscaped()
    ensures Escaped("P") && Escaped("K") && Escaped("a:b\\\"")
  {
    var s := "a:b\\\"";
    assert s[1..] == ":b\\\"" && s[1..][1..] == "b\\\"" && s[1..][1..][1..] == "\\\"";
    assert s[1..][1..][1..][2..] == "";
  }

  lemma PrintedList(items: seq<Json>)
    ensures Print(Arr(items)) == "[" + Items(items) + "]"
  {
  }

  lemma ThreePrinted(a: Json, b: Json, c: Json)
    ensures Print(Arr([a, b, c])) == "[" + Print(a) + "," + Print(b) + "," + Print(c) + "]"
  {
    hide Print;
    PrintedList([a, b, c]);
    assert [a, b, c][1..] == [b, c] && [b, c][1..] == [c] && [c][1..] == [];
    assert Items([a, b, c]) == Print(a) + ItemsTail([b, c]);
    assert ItemsTail([b, c]) == "," + Print(b) + ItemsTail([c]);
    assert ItemsTail([c]) == "," + Print(c) + "";
  }

  lemma TwoPrinted(a: Member, b: Member)
    ensures Print(Obj([a, b])) == "{" + MemberText(a) + "," + MemberText(b) + "}"
    ensures Print(Obj(Dropped([a, b], 1))) == "{" + MemberText(a) + "}"
    ensures KeyOffset([a, b], 1) == |MemberText(a)| + 2
  {
    hide MemberText;
    assert [a, b][..1] == [a] && [a][1..] == [] && [a, b][2..] == [] && [a, b][1..] == [b];
    PrintAround([a, b], 1);
    assert Dropped([a, b], 1) == [a];
  }
}
