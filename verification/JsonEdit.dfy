/** The in-place edits tools/login.cpp makes on raw JSON text. Each function is what an edit
    computes on any text at all; each method of JsonText is the C++ routine, loops included. */
module JsonEdit {
  import opened Wrappers
  import opened Text
  import opened JsonTree

  // ---------- what the edits compute on text ----------

  /** Where the value scanner stops: the ',' or '}' that closes the value starting at `i`, or the
      end of the text. `o` and `a` count open braces and brackets. */
  function ValueEnd(t: string, i: nat, inStr: bool, esc: bool, o: int, a: int): (r: nat)
    requires i <= |t|
    ensures i <= r <= |t|
    decreases |t| - i
  {
    if i == |t| then i
    else
      var ch := t[i];
      if inStr then ValueEnd(t, i + 1, esc || ch != '"', !esc && ch == '\\', o, a)
      else if ch == '"' then ValueEnd(t, i + 1, true, esc, o, a)
      else if ch == '{' then ValueEnd(t, i + 1, false, esc, o + 1, a)
      else if ch == '}' then (if o == 0 && a == 0 then i else ValueEnd(t, i + 1, false, esc, o - 1, a))
      else if ch == '[' then ValueEnd(t, i + 1, false, esc, o, a + 1)
      else if ch == ']' then ValueEnd(t, i + 1, false, esc, o, a - 1)
      else if ch == ',' && o == 0 && a == 0 then i
      else ValueEnd(t, i + 1, false, esc, o, a)
  }

  /** The smallest offset reached by stepping back from `i` over spaces. */
  function BackOverSpaces(t: string, i: nat): (r: nat)
    requires i <= |t|
    ensures r <= i
    ensures r > 0 ==> !IsSpace(t[r - 1])
  {
    if i > 0 && IsSpace(t[i - 1]) then BackOverSpaces(t, i - 1) else i
  }

  /** The text a removal erases, as a half-open span; None when key or colon is missing. */
  function RemoveSpan(t: string, key: string): (r: Option<(nat, nat)>)
    ensures r.Some? ==> r.value.0 <= r.value.1 <= |t|
  {
    var k := Find(t, Quoted(key), 0);
    if k.None? then None else
    var c := Find(t, ":", k.value);
    if c.None? then None else
    var end := ValueEnd(t, c.value + 1, false, false, 0, 0);
    if end < |t| && t[end] == ',' then Some((k.value, end + 1))
    else
      var b := BackOverSpaces(t, k.value);
      Some((if b > 0 && t[b - 1] == ',' then b - 1 else b, end))
  }

  function RemoveText(t: string, key: string): string {
    match RemoveSpan(t, key)
    case None => t
    case Some((b, e)) => t[..b] + t[e..]
  }

  function ReplaceSpan(t: string, b: nat, e: nat, s: string): (r: string)
    requires b <= e <= |t|
  {
    t[..b] + s + t[e..]
  }

  /** The first offset at or after `i` that is neither '-' nor a digit. */
  function IntEnd(t: string, i: nat): (r: nat)
    requires i <= |t|
    ensures i <= r <= |t|
    decreases |t| - i
  {
    if i < |t| && (t[i] == '-' || IsDigit(t[i])) then IntEnd(t, i + 1) else i
  }

  function IntSpan(t: string, key: string): (r: Option<(nat, nat)>)
    ensures r.Some? ==> r.value.0 <= r.value.1 <= |t|
  {
    var k := Find(t, Quoted(key), 0);
    if k.None? then None else
    var c := Find(t, ":", k.value);
    if c.None? then None else
    var p := SkipSpaces(t, c.value + 1);
    Some((p, IntEnd(t, p)))
  }

  function ReplaceIntText(t: string, key: string, value: int): string {
    match IntSpan(t, key)
    case None => t
    case Some((b, e)) => ReplaceSpan(t, b, e, Decimal(value))
  }

  /** The closing quote of a string body that starts at `i`, None when there is none. */
  function ClosingQuote(t: string, i: nat, esc: bool): (r: Option<nat>)
    requires i <= |t|
    ensures r.Some? ==> i <= r.value < |t| && t[r.value] == '"'
    decreases |t| - i
  {
    if i == |t| then None
    else if esc then ClosingQuote(t, i + 1, false)
    else if t[i] == '\\' then ClosingQuote(t, i + 1, true)
    else if t[i] == '"' then Some(i)
    else ClosingQuote(t, i + 1, false)
  }

  /** The body of the first string after the key's colon. */
  function StringSpan(t: string, key: string): (r: Option<(nat, nat)>)
    ensures r.Some? ==> r.value.0 <= r.value.1 < |t|
  {
    var k := Find(t, Quoted(key), 0);
    if k.None? then None else
    var c := Find(t, ":", k.value);
    if c.None? then None else
    var q1 := Find(t, "\"", c.value);
    if q1.None? then None else
    var q2 := ClosingQuote(t, q1.value + 1, false);
    if q2.None? then None else Some((q1.value + 1, q2.value))
  }

  function ReplaceStringText(t: string, key: string, value: string): string {
    match StringSpan(t, key)
    case None => t
    case Some((b, e)) => ReplaceSpan(t, b, e, EscapeJson(value))
  }

  predicate HasKeyText(t: string, key: string) {
    Find(t, Quoted(key), 0).Some?
  }

  function AddRawText(t: string, beforeKey: string, key: string, raw: string): string {
    if HasKeyText(t, key) then t else
    var field := Quoted(key) + ":" + raw;
    match Find(t, Quoted(beforeKey), 0)
    case Some(p) => t[..p] + (field + ",") + t[p..]
    case None =>
      match FindLast(t, '}')
      case None => t
      case Some(brace) =>
        var b := BackOverSpaces(t, brace);
        var lead := if b > 0 && t[b - 1] == '{' then "" else ",";
        t[..brace] + (lead + field) + t[brace..]
  }

  function BoolText(b: bool): string {
    if b then "true" else "false"
  }

  function SetStringText(t: string, beforeKey: string, key: string, value: string): string {
    if HasKeyText(t, key) then ReplaceStringText(t, key, value)
    else AddRawText(t, beforeKey, key, Quoted(EscapeJson(value)))
  }

  function SetIntText(t: string, beforeKey: string, key: string, value: int): string {
    if IntSpan(t, key).Some? then ReplaceIntText(t, key, value)
    else AddRawText(t, beforeKey, key, Decimal(value))
  }

  function SetBoolText(t: string, beforeKey: string, key: string, value: bool): string {
    AddRawText(RemoveText(t, key), beforeKey, key, BoolText(value))
  }

  // ---------- escaping and numbers ----------

  function EscapeChar(c: char): string {
    if c == '\\' then "\\\\"
    else if c == '"' then "\\\""
    else if c == '\n' then "\\n"
    else if c == '\r' then "\\r"
    else [c]
  }

  function EscapeJson(s: string): string {
    if s == "" then "" else EscapeChar(s[0]) + EscapeJson(s[1..])
  }

  lemma {:induction false} EscapeJsonAppend(s: string, c: char)
    ensures EscapeJson(s + [c]) == EscapeJson(s) + EscapeChar(c)
  {
    if s == "" {
      assert s + [c] == [c];
    } else {
      EscapeJsonAppend(s[1..], c);
      assert (s + [c])[1..] == s[1..] + [c];
    }
  }

  /** Whatever text is escaped, the result is a string body: the edits never unbalance quotes. */
  lemma {:induction false} EscapeJsonIsEscaped(s: string)
    ensures Escaped(EscapeJson(s))
  {
    if s != "" {
      EscapeJsonIsEscaped(s[1..]);
      var e := EscapeChar(s[0]);
      assert (e + EscapeJson(s[1..]))[|e|..] == EscapeJson(s[1..]);
    }
  }

  function DecimalDigits(n: nat): (r: string)
    ensures r != "" && forall c | c in r :: IsDigit(c)
  {
    var d := [('0' as int + n % 10) as char];
    if n < 10 then d else DecimalDigits(n / 10) + d
  }

  /** std::to_string of an integer. */
  function Decimal(n: int): (r: string)
    ensures IntegerText(r)
  {
    if n < 0 then "-" + DecimalDigits(-n) else DecimalDigits(n)
  }

  /** Non-empty, and made only of characters the integer replacement spans. */
  predicate IntegerText(t: string) {
    t != "" && forall i | 0 <= i < |t| :: t[i] == '-' || IsDigit(t[i])
  }

  // ---------- the C++ routines ----------

  method Escape(s: string) returns (out: string)
    ensures out == EscapeJson(s)
  {
    out := "";
    for i := 0 to |s|
      invariant out == EscapeJson(s[..i])
    {
      var c := s[i];
      EscapeJsonAppend(s[..i], c);
      assert s[..i + 1] == s[..i] + [c];
      if c == '\\' {
        out := out + "\\\\";
      } else if c == '"' {
        out := out + "\\\"";
      } else if c == '\n' {
        out := out + "\\n";
      } else if c == '\r' {
        out := out + "\\r";
      } else {
        out := out + [c];
      }
    }
    assert s[..|s|] == s;
  }

  /** The scanning loop of removeJsonKeyValue. */
  method ScanToValueEnd(json: string, valueStart: nat) returns (end: nat)
    requires valueStart <= |json|
    ensures end == ValueEnd(json, valueStart, false, false, 0, 0)
  {
    var inStr, esc, depthObj, depthArr := false, false, 0, 0;
    end := valueStart;
    while end < |json|
      invariant end <= |json|
      invariant ValueEnd(json, valueStart, false, false, 0, 0) ==
                ValueEnd(json, end, inStr, esc, depthObj, depthArr)
    {
      var ch := json[end];
      if inStr {
        if esc {
          esc := false;
        } else if ch == '\\' {
          esc := true;
        } else if ch == '"' {
          inStr := false;
        }
      } else if ch == '"' {
        inStr := true;
      } else if ch == '{' {
        depthObj := depthObj + 1;
      } else if ch == '}' {
        if depthObj == 0 && depthArr == 0 {
          break;
        }
        depthObj := depthObj - 1;
      } else if ch == '[' {
        depthArr := depthArr + 1;
      } else if ch == ']' {
        depthArr := depthArr - 1;
      } else if ch == ',' && depthObj == 0 && depthArr == 0 {
        break;
      }
      end := end + 1;
    }
  }

  /** The two scanning loops of replaceJsonIntValue. */
  method ScanInteger(json: string, start: nat) returns (p: nat, e: nat)
    requires start <= |json|
    ensures p == SkipSpaces(json, start) && e == IntEnd(json, p)
  {
    p := start;
    while p < |json| && IsSpace(json[p])
      invariant p <= |json|
      invariant SkipSpaces(json, start) == SkipSpaces(json, p)
    {
      p := p + 1;
    }
    e := p;
    while e < |json| && (json[e] == '-' || IsDigit(json[e]))
      invariant e <= |json|
      invariant IntEnd(json, p) == IntEnd(json, e)
    {
      e := e + 1;
    }
  }

  /** The scanning loop of replaceJsonStringValue. */
  method ScanClosingQuote(json: string, start: nat) returns (q2: Option<nat>)
    requires start <= |json|
    ensures q2 == ClosingQuote(json, start, false)
  {
    var esc, p := false, start;
    while p < |json|
      invariant p <= |json|
      invariant ClosingQuote(json, start, false) == ClosingQuote(json, p, esc)
    {
      var ch := json[p];
      if esc {
        esc := false;
      } else if ch == '\\' {
        esc := true;
      } else if ch == '"' {
        return Some(p);
      }
      p := p + 1;
    }
    return None;
  }

  /** The backward loop both removeJsonKeyValue and addJsonRawBeforeKey use. */
  method StepBackOverSpaces(json: string, start: nat) returns (p: nat)
    requires start <= |json|
    ensures p == BackOverSpaces(json, start)
  {
    p := start;
    while p > 0 && IsSpace(json[p - 1])
      invariant p <= start
      invariant BackOverSpaces(json, start) == BackOverSpaces(json, p)
    {
      p := p - 1;
    }
  }

  /** A std::string holding JSON text that the routines change in place. */
  class JsonText {
    var json: string

    constructor (text: string)
      ensures json == text
    {
      json := text;
    }

    method RemoveJsonKeyValue(key: string) returns (removed: bool)
      modifies this
      ensures removed <==> RemoveSpan(old(json), key).Some?
      ensures json == RemoveText(old(json), key)
    {
      var keyPos := Find(json, Quoted(key), 0);
      if keyPos.None? {
        return false;
      }
      var valueStart := Find(json, ":", keyPos.value);
      if valueStart.None? {
        return false;
      }
      var end := ScanToValueEnd(json, valueStart.value + 1);
      var eraseBegin, eraseEnd := keyPos.value, end;
      if eraseEnd < |json| && json[eraseEnd] == ',' {
        eraseEnd := eraseEnd + 1;
      } else {
        eraseBegin := StepBackOverSpaces(json, keyPos.value);
        if eraseBegin > 0 && json[eraseBegin - 1] == ',' {
          eraseBegin := eraseBegin - 1;
        }
      }
      json := json[..eraseBegin] + json[eraseEnd..];
      return true;
    }

    method ReplaceJsonIntValue(key: string, value: int) returns (replaced: bool)
      modifies this
      ensures replaced <==> IntSpan(old(json), key).Some?
      ensures json == ReplaceIntText(old(json), key, value)
    {
      var found := Find(json, Quoted(key), 0);
      if found.None? {
        return false;
      }
      found := Find(json, ":", found.value);
      if found.None? {
        return false;
      }
      var p, e := ScanInteger(json, found.value + 1);
      json := json[..p] + Decimal(value) + json[e..];
      return true;
    }

    method ReplaceJsonStringValue(key: string, value: string)
      modifies this
      ensures json == ReplaceStringText(old(json), key, value)
    {
      var k := Find(json, Quoted(key), 0);
      if k.None? {
        return;
      }
      var c := Find(json, ":", k.value);
      if c.None? {
        return;
      }
      var q1 := Find(json, "\"", c.value);
      if q1.None? {
        return;
      }
      var q2 := ScanClosingQuote(json, q1.value + 1);
      if q2.Some? {
        var escaped := Escape(value);
        json := json[..q1.value + 1] + escaped + json[q2.value..];
      }
    }

    method AddJsonRawBeforeKey(beforeKey: string, key: string, raw: string)
      modifies this
      ensures json == AddRawText(old(json), beforeKey, key, raw)
    {
      if HasKeyText(json, key) {
        return;
      }
      var field := Quoted(key) + ":" + raw;
      var p := Find(json, Quoted(beforeKey), 0);
      if p.Some? {
        json := json[..p.value] + (field + ",") + json[p.value..];
      } else {
        var brace := FindLast(json, '}');
        if brace.Some? {
          var beforeBrace := StepBackOverSpaces(json, brace.value);
          var emptyObject := beforeBrace > 0 && json[beforeBrace - 1] == '{';
          json := json[..brace.value] + ((if emptyObject then "" else ",") + field) + json[brace.value..];
        }
      }
    }

    method SetJsonStringValue(beforeKey: string, key: string, value: string)
      modifies this
      ensures json == SetStringText(old(json), beforeKey, key, value)
    {
      if HasKeyText(json, key) {
        ReplaceJsonStringValue(key, value);
      } else {
        var escaped := Escape(value);
        AddJsonRawBeforeKey(beforeKey, key, Quoted(escaped));
      }
    }

    method SetJsonIntValue(beforeKey: string, key: string, value: int)
      modifies this
      ensures json == SetIntText(old(json), beforeKey, key, value)
    {
      var replaced := ReplaceJsonIntValue(key, value);
      if !replaced {
        AddJsonRawBeforeKey(beforeKey, key, Decimal(value));
      }
    }

    method SetJsonBoolValue(beforeKey: string, key: string, value: bool)
      modifies this
      ensures json == SetBoolText(old(json), beforeKey, key, value)
    {
      var _ := RemoveJsonKeyValue(key);
      AddJsonRawBeforeKey(beforeKey, key, BoolText(value));
    }
  }
}
