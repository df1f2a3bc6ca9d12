/** The edits of tools/login.cpp on a text that whitespace follows, such as a template file that ends
    in a newline: they do to the text what they do without it. */
module JsonTail {
  import opened Wrappers
  import opened Text
  import opened JsonTree
  import opened JsonEdit

  predicate Spaces(ws: string) {
    forall i | 0 <= i < |ws| :: IsSpace(ws[i])
  }

  /** A text that ends in the brace of an object. */
  predicate EndsInBrace(t: string) {
    t != "" && t[|t| - 1] == '}'
  }

  lemma FindTail(t: string, ws: string, s: string, from: nat)
    requires Spaces(ws) && s != "" && !IsSpace(s[|s| - 1])
    ensures Find(t + ws, s, from) == Find(t, s, from)
  {
    var u := t + ws;
    hide Find;
    FindIsFirst(t, s, from);
    if Find(t, s, from).Some? {
      assert u[..|t|] == t[..|t|];
      FindCommon(t, u, s, from, |t|);
    } else {
      forall p | from <= p < |u| + 1
        ensures !At(u, p, s)
      {
        NoMatchInTail(t, ws, s, p);
      }
      FindNone(u, s, from);
    }
  }

  lemma NoMatchInTail(t: string, ws: string, s: string, p: nat)
    requires Spaces(ws) && s != "" && !IsSpace(s[|s| - 1])
    requires p + |s| <= |t| ==> !At(t, p, s)
    ensures !At(t + ws, p, s)
  {
    var u, q := t + ws, p + |s| - 1;
    if p + |s| <= |t| {
      assert u[p..p + |s|] == t[p..p + |s|];
    } else if p + |s| <= |u| {
      assert u[q] == ws[q - |t|] && u[p..p + |s|][|s| - 1] == u[q];
    }
  }

  lemma KeyTail(t: string, ws: string, key: string)
    requires Spaces(ws)
    ensures Find(t + ws, Quoted(key), 0) == Find(t, Quoted(key), 0)
  {
    assert Quoted(key)[|key| + 1] == '"';
    FindTail(t, ws, Quoted(key), 0);
  }

  // ---------- the scanners ----------

  lemma {:induction false} ValueEndTail(t: string, ws: string, i: nat, inStr: bool, esc: bool, o: int, a: int)
    requires i <= |t| && ValueEnd(t, i, inStr, esc, o, a) < |t|
    ensures ValueEnd(t + ws, i, inStr, esc, o, a) == ValueEnd(t, i, inStr, esc, o, a)
    decreases |t| - i
  {
    var ch := t[i];
    assert (t + ws)[i] == ch;
    if inStr {
      ValueEndTail(t, ws, i + 1, esc || ch != '"', !esc && ch == '\\', o, a);
    } else if ch == '"' {
      ValueEndTail(t, ws, i + 1, true, esc, o, a);
    } else if ch == '{' {
      ValueEndTail(t, ws, i + 1, false, esc, o + 1, a);
    } else if ch == '}' {
      if !(o == 0 && a == 0) {
        ValueEndTail(t, ws, i + 1, false, esc, o - 1, a);
      }
    } else if ch == '[' {
      ValueEndTail(t, ws, i + 1, false, esc, o, a + 1);
    } else if ch == ']' {
      ValueEndTail(t, ws, i + 1, false, esc, o, a - 1);
    } else if !(ch == ',' && o == 0 && a == 0) {
      ValueEndTail(t, ws, i + 1, false, esc, o, a);
    }
  }

  lemma {:induction false} BackTail(t: string, ws: string, i: nat)
    requires i <= |t|
    ensures BackOverSpaces(t + ws, i) == BackOverSpaces(t, i)
    decreases i
  {
    if i > 0 {
      assert (t + ws)[i - 1] == t[i - 1];
      BackTail(t, ws, i - 1);
    }
  }

  lemma {:induction false} ClosingTail(t: string, ws: string, i: nat, esc: bool)
    requires i <= |t| + |ws| && Spaces(ws)
    ensures ClosingQuote(t + ws, i, esc) == if i <= |t| then ClosingQuote(t, i, esc) else None
    decreases |t| + |ws| - i
  {
    if i < |t| + |ws| {
      assert (t + ws)[i] == if i < |t| then t[i] else ws[i - |t|];
      ClosingTail(t, ws, i + 1, false);
      ClosingTail(t, ws, i + 1, true);
    }
  }

  lemma {:induction false} SkipTail(t: string, ws: string, i: nat)
    requires EndsInBrace(t) && i < |t|
    ensures SkipSpaces(t + ws, i) == SkipSpaces(t, i) < |t|
    decreases |t| - i
  {
    assert (t + ws)[i] == t[i];
    if IsSpace(t[i]) {
      SkipTail(t, ws, i + 1);
    }
  }

  lemma {:induction false} IntEndTail(t: string, ws: string, i: nat)
    requires EndsInBrace(t) && i < |t|
    ensures IntEnd(t + ws, i) == IntEnd(t, i)
    decreases |t| - i
  {
    assert (t + ws)[i] == t[i];
    if t[i] == '-' || IsDigit(t[i]) {
      IntEndTail(t, ws, i + 1);
    }
  }

  lemma Cut(t: string, ws: string, b: nat, e: nat, s: string)
    requires b <= e <= |t|
    ensures (t + ws)[..b] + s + (t + ws)[e..] == t[..b] + s + t[e..] + ws
  {
    assert (t + ws)[..b] == t[..b] && (t + ws)[e..] == t[e..] + ws;
  }

  // ---------- the edits ----------

  lemma RemoveTail(t: string, ws: string, key: string)
    requires Spaces(ws) && (RemoveSpan(t, key).Some? ==> RemoveSpan(t, key).value.1 < |t|)
    ensures RemoveText(t + ws, key) == RemoveText(t, key) + ws
  {
    RemoveSpanTail(t, ws, key);
    hide RemoveSpan;
    if RemoveSpan(t, key).Some? {
      var (b, e) := RemoveSpan(t, key).value;
      Cut(t, ws, b, e, "");
      assert t[..b] + "" == t[..b] && (t + ws)[..b] + "" == (t + ws)[..b];
    }
  }

  lemma RemoveSpanTail(t: string, ws: string, key: string)
    requires Spaces(ws) && (RemoveSpan(t, key).Some? ==> RemoveSpan(t, key).value.1 < |t|)
    ensures RemoveSpan(t + ws, key) == RemoveSpan(t, key)
  {
    hide Find, ValueEnd, BackOverSpaces, Quoted;
    KeyTail(t, ws, key);
    var k := Find(t, Quoted(key), 0);
    if k.Some? {
      FindTail(t, ws, ":", k.value);
      var c := Find(t, ":", k.value);
      if c.Some? {
        ValueEndTail(t, ws, c.value + 1, false, false, 0, 0);
        BackTail(t, ws, k.value);
        var e := ValueEnd(t, c.value + 1, false, false, 0, 0);
        assert (t + ws)[e] == t[e];
      }
    }
  }

  lemma StringTail(t: string, ws: string, key: string, value: string)
    requires Spaces(ws)
    ensures ReplaceStringText(t + ws, key, value) == ReplaceStringText(t, key, value) + ws
  {
    StringSpanTail(t, ws, key);
    hide StringSpan, EscapeJson;
    if StringSpan(t, key).Some? {
      var (b, e) := StringSpan(t, key).value;
      Cut(t, ws, b, e, EscapeJson(value));
    }
  }

  lemma StringSpanTail(t: string, ws: string, key: string)
    requires Spaces(ws)
    ensures StringSpan(t + ws, key) == StringSpan(t, key)
  {
    hide Find, ClosingQuote, Quoted;
    KeyTail(t, ws, key);
    var k := Find(t, Quoted(key), 0);
    if k.Some? {
      FindTail(t, ws, ":", k.value);
      var c := Find(t, ":", k.value);
      if c.Some? {
        FindTail(t, ws, "\"", c.value);
        var q := Find(t, "\"", c.value);
        if q.Some? {
          ClosingTail(t, ws, q.value + 1, false);
        }
      }
    }
  }

  lemma IntTail(t: string, ws: string, key: string, n: int)
    requires Spaces(ws) && EndsInBrace(t)
    ensures IntSpan(t + ws, key) == IntSpan(t, key)
    ensures ReplaceIntText(t + ws, key, n) == ReplaceIntText(t, key, n) + ws
  {
    IntSpanTail(t, ws, key);
    hide IntSpan, Decimal;
    if IntSpan(t, key).Some? {
      var (b, e) := IntSpan(t, key).value;
      Cut(t, ws, b, e, Decimal(n));
    }
  }

  lemma IntSpanTail(t: string, ws: string, key: string)
    requires Spaces(ws) && EndsInBrace(t)
    ensures IntSpan(t + ws, key) == IntSpan(t, key)
  {
    hide Find, SkipSpaces, IntEnd, Quoted;
    KeyTail(t, ws, key);
    var k := Find(t, Quoted(key), 0);
    if k.Some? {
      FindTail(t, ws, ":", k.value);
      var c := Find(t, ":", k.value);
      if c.Some? {
        FindIsFirst(t, ":", k.value);
        CharAt(t, c.value, ':');
        SkipTail(t, ws, c.value + 1);
        IntEndTail(t, ws, SkipSpaces(t, c.value + 1));
      }
    }
  }

  lemma AddTail(t: string, ws: string, before: string, key: string, raw: string)
    requires Spaces(ws)
    ensures AddRawText(t + ws, before, key, raw) == AddRawText(t, before, key, raw) + ws
  {
    hide Find, FindLast, BackOverSpaces, Quoted;
    KeyTail(t, ws, key);
    KeyTail(t, ws, before);
    LastTail(t, ws);
    var field := Quoted(key) + ":" + raw;
    var p, brace := Find(t, Quoted(before), 0), FindLast(t, '}');
    if p.Some? {
      Cut(t, ws, p.value, p.value, field + ",");
    } else if brace.Some? {
      BackTail(t, ws, brace.value);
      var b := BackOverSpaces(t, brace.value);
      assert b > 0 ==> (t + ws)[b - 1] == t[b - 1];
      Cut(t, ws, brace.value, brace.value, (if b > 0 && t[b - 1] == '{' then "" else ",") + field);
    }
  }

  lemma LastTail(t: string, ws: string)
    requires Spaces(ws)
    ensures FindLast(t + ws, '}') == FindLast(t, '}')
  {
    hide FindLast;
    var u, r, s := t + ws, FindLast(t + ws, '}'), FindLast(t, '}');
    assert forall i | |t| <= i < |u| :: u[i] == ws[i - |t|] != '}';
    assert forall i | 0 <= i < |t| :: u[i] == t[i];
  }
}
