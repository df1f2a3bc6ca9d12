/** JSON values as trees and their compact text (RFC 8259, sections 2 to 7).
    Strings and keys are kept in their escaped form, as the text edits see them. */
module JsonTree {
  import opened Wrappers
  import opened Text

  datatype Json =
    | Null
    | Bool(b: bool)
    | Num(digits: string)
    | Str(body: string)
    | Arr(items: seq<Json>)
    | Obj(members: seq<Member>)

  datatype Member = Member(key: string, value: Json)

  /** A string body between its quotes: every quote is escaped and no escape is cut off. */
  predicate Escaped(body: string) {
    if body == "" then true
    else if body[0] == '\\' then |body| >= 2 && Escaped(body[2..])
    else body[0] != '"' && Escaped(body[1..])
  }

  predicate NumberChar(c: char) {
    IsDigit(c) || c == '-' || c == '+' || c == '.' || c == 'e' || c == 'E'
  }

  predicate NumberText(t: string) {
    t != "" && forall i | 0 <= i < |t| :: NumberChar(t[i])
  }

  ghost predicate WellFormed(j: Json)
    decreases j, 0
  {
    match j
    case Num(digits) => NumberText(digits)
    case Str(body) => Escaped(body)
    case Arr(items) => forall v | v in items :: WellFormed(v)
    case Obj(members) => WellFormedMembers(members)
    case _ => true
  }

  ghost predicate WellFormedMembers(ms: seq<Member>)
    decreases ms, 1
  {
    forall m | m in ms :: Escaped(m.key) && WellFormed(m.value)
  }

  // ---------- compact printing ----------

  function Quoted(body: string): (r: string) {
    "\"" + body + "\""
  }

  function Print(j: Json): (r: string)
    decreases j, 1
  {
    match j
    case Null => "null"
    case Bool(b) => if b then "true" else "false"
    case Num(digits) => digits
    case Str(body) => Quoted(body)
    case Arr(items) => "[" + Items(items) + "]"
    case Obj(members) => "{" + Fields(members) + "}"
  }

  function Items(items: seq<Json>): (r: string)
    decreases items, 3
  {
    if items == [] then "" else Print(items[0]) + ItemsTail(items[1..])
  }

  function ItemsTail(items: seq<Json>): (r: string)
    decreases items, 0
  {
    if items == [] then "" else "," + Print(items[0]) + ItemsTail(items[1..])
  }

  function MemberText(m: Member): (r: string)
    decreases m, 2
  {
    Quoted(m.key) + ":" + Print(m.value)
  }

  function Fields(ms: seq<Member>): (r: string)
    decreases ms, 3
  {
    if ms == [] then "" else MemberText(ms[0]) + FieldsTail(ms[1..])
  }

  /** Every member with a comma before it. */
  function FieldsTail(ms: seq<Member>): (r: string)
    decreases ms, 0
  {
    if ms == [] then "" else "," + MemberText(ms[0]) + FieldsTail(ms[1..])
  }

  /** Every member with a comma after it. */
  function Lead(ms: seq<Member>): (r: string) {
    if ms == [] then "" else MemberText(ms[0]) + "," + Lead(ms[1..])
  }

  lemma QuotedLength(body: string)
    ensures |Quoted(body)| == |body| + 2
  {
  }

  lemma PrintedNumber(digits: string)
    ensures Print(Num(digits)) == digits
  {
  }

  lemma {:induction false} TailSplit(a: seq<Member>, b: seq<Member>)
    ensures FieldsTail(a + b) == FieldsTail(a) + FieldsTail(b)
  {
    if a == [] {
      assert a + b == b;
    } else {
      TailSplit(a[1..], b);
      assert (a + b)[1..] == a[1..] + b;
      Concat3("," + MemberText(a[0]), FieldsTail(a[1..]), FieldsTail(b));
    }
  }

  lemma {:induction false} FieldsSplit(a: seq<Member>, b: seq<Member>)
    requires b != []
    ensures Fields(a + b) == Lead(a) + Fields(b)
  {
    hide MemberText;
    if a == [] {
      assert a + b == b;
    } else {
      FieldsSplit(a[1..], b);
      assert (a + b)[1..] == a[1..] + b;
      TailIsComma(a[1..] + b);
      Concat3(MemberText(a[0]), ",", Fields(a[1..] + b));
      Concat3(MemberText(a[0]) + ",", Lead(a[1..]), Fields(b));
    }
  }

  lemma TailIsComma(ms: seq<Member>)
    requires ms != []
    ensures FieldsTail(ms) == "," + Fields(ms)
  {
    Concat3(",", MemberText(ms[0]), FieldsTail(ms[1..]));
  }

  lemma {:induction false} LeadDropsComma(ms: seq<Member>)
    requires ms != []
    ensures Lead(ms) == Fields(ms) + ","
  {
    if |ms| == 1 {
      assert ms[1..] == [];
    } else {
      LeadDropsComma(ms[1..]);
      TailIsComma(ms[1..]);
    }
  }

  /** The offset of the i-th member's key in the object's text. */
  function KeyOffset(ms: seq<Member>, i: nat): (r: nat)
    requires i <= |ms|
  {
    1 + |Lead(ms[..i])|
  }

  /** The object's text around its i-th member. */
  lemma PrintAround(ms: seq<Member>, i: nat)
    requires i < |ms|
    ensures Print(Obj(ms)) == "{" + Lead(ms[..i]) + MemberText(ms[i]) + FieldsTail(ms[i + 1..]) + "}"
  {
    hide MemberText;
    FieldsSplit(ms[..i], ms[i..]);
    assert ms[..i] + ms[i..] == ms;
    assert ms[i..][1..] == ms[i + 1..];
  }

  // ---------- members by key ----------

  /** The first member with this key, |ms| when there is none. */
  function IndexOf(ms: seq<Member>, k: string): (r: nat)
    ensures r <= |ms|
    ensures r < |ms| ==> ms[r].key == k
    ensures forall i | 0 <= i < r :: ms[i].key != k
  {
    if ms == [] || ms[0].key == k then 0 else 1 + IndexOf(ms[1..], k)
  }

  function Lookup(ms: seq<Member>, k: string): (r: Option<Json>)
    ensures r.None? <==> forall m | m in ms :: m.key != k
  {
    var i := IndexOf(ms, k);
    if i < |ms| then Some(ms[i].value) else None
  }

  ghost predicate UniqueKeys(ms: seq<Member>) {
    forall i, j | 0 <= i < j < |ms| :: ms[i].key != ms[j].key
  }
}
