/** Scripts of client-data edits: run on the text of an object they produce the text of the object
    the same script makes of the tree, for every script and every object the edits fit. */
module ClientData {
  import opened Wrappers
  import opened Text
  import opened JsonTree
  import opened JsonEdit
  import opened JsonRefine
  import opened JsonLocate
  import opened JsonExact
  import opened JsonRemoval
  import opened JsonTail
  import opened TreeEdit
  import opened ClientFields

  /** One call of a routine of tools/login.cpp; Keep is a call its version guard skips. */
  datatype Edit =
    | SetString(f: Field, text: string)
    | SetInt(f: Field, n: int)
    | SetBool(f: Field, b: bool)
    | Remove(f: Field)
    | AddBool(before: Field, f: Field, b: bool)
    | ReplaceString(f: Field, text: string)
    | ReplaceInt(f: Field, n: int)
    | Keep

  const BEFORE := Name(SkinAnimationData)

  function StepText(t: string, e: Edit): string {
    match e
    case SetString(f, text) => SetStringText(t, BEFORE, Name(f), text)
    case SetInt(f, n) => SetIntText(t, BEFORE, Name(f), n)
    case SetBool(f, b) => SetBoolText(t, BEFORE, Name(f), b)
    case Remove(f) => RemoveText(t, Name(f))
    case AddBool(before, f, b) => AddRawText(t, Name(before), Name(f), BoolText(b))
    case ReplaceString(f, text) => ReplaceStringText(t, Name(f), text)
    case ReplaceInt(f, n) => ReplaceIntText(t, Name(f), n)
    case Keep => t
  }

  function TextOf(s: string): Json {
    Str(EscapeJson(s))
  }

  function IntOf(n: int): Json {
    Num(Decimal(n))
  }

  /** Sets a member: overwrites an existing one, adds a missing one before the named key. */
  function Set(ms: seq<Member>, before: string, k: string, v: Json): seq<Member> {
    if Lookup(ms, k).Some? then Overwrite(ms, k, v) else Put(ms, before, Member(k, v))
  }

  function StepTree(ms: seq<Member>, e: Edit): seq<Member> {
    match e
    case SetString(f, text) => Set(ms, BEFORE, Name(f), TextOf(text))
    case SetInt(f, n) => Set(ms, BEFORE, Name(f), IntOf(n))
    case SetBool(f, b) => Put(Without(ms, Name(f)), BEFORE, Member(Name(f), Bool(b)))
    case Remove(f) => Without(ms, Name(f))
    case AddBool(before, f, b) => Put(ms, Name(before), Member(Name(f), Bool(b)))
    case ReplaceString(f, text) => Overwrite(ms, Name(f), TextOf(text))
    case ReplaceInt(f, n) => Overwrite(ms, Name(f), IntOf(n))
    case Keep => ms
  }

  /** The edit writes values of its field's kind, and only texts no field name is found in. */
  ghost predicate ValidEdit(e: Edit) {
    match e
    case SetString(f, text) => KindOf(f) == StringKind && Harmless(text)
    case ReplaceString(f, text) => KindOf(f) == StringKind && Harmless(text)
    case SetInt(f, n) => KindOf(f) == IntKind
    case ReplaceInt(f, n) => KindOf(f) == IntKind
    case SetBool(f, b) => KindOf(f) == AnyKind && Droppable(f)
    case AddBool(_, f, b) => KindOf(f) == AnyKind
    case Remove(f) => Droppable(f)
    case Keep => true
  }

  // ---------- the objects the edits fit ----------

  function Ahead(ms: seq<Member>, k: string): seq<Member> {
    ms[..IndexOf(ms, k)]
  }

  /** The first text equal to the quoted name is the field's own key; a field that gets taken out
      leaves no such text behind; an existing value has the field's kind. */
  ghost predicate FitField(ms: seq<Member>, f: Field) {
    && (forall m | m in Ahead(ms, Name(f)) :: CleanMember(m, Name(f)))
    && (Droppable(f) ==> forall m | m in ms && m.key != Name(f) :: CleanMember(m, Name(f)))
    && (forall m | m in ms && m.key == Name(f) :: Fits(KindOf(f), m.value))
  }

  ghost predicate Fit(ms: seq<Member>) {
    && WellFormedMembers(ms) && UniqueKeys(ms)
    && forall f :: FitField(ms, f)
  }

  lemma {:induction false} IndexOfConcat(a: seq<Member>, b: seq<Member>, k: string)
    ensures IndexOf(a + b, k) == if IndexOf(a, k) < |a| then IndexOf(a, k) else |a| + IndexOf(b, k)
  {
    if a == [] {
      assert a + b == b;
    } else {
      assert (a + b)[1..] == a[1..] + b;
      IndexOfConcat(a[1..], b, k);
    }
  }

  lemma AheadConcat(a: seq<Member>, b: seq<Member>, k: string)
    ensures Ahead(a + b, k) == if IndexOf(a, k) < |a| then Ahead(a, k) else a + Ahead(b, k)
  {
    IndexOfConcat(a, b, k);
  }

  /** With another member in the middle, what lies ahead of a key is what did, or that member. */
  lemma AheadMiddle(a: seq<Member>, x: seq<Member>, y: seq<Member>, b: seq<Member>, k: string, m: Member)
    requires |x| <= 1 && |y| <= 1 && m in Ahead(a + y + b, k)
    requires forall i | i in x :: i.key == k ==> exists j | j in y :: j.key == k
    ensures m in Ahead(a + x + b, k) || (m in y && m.key != k)
  {
    AheadAround(a, x, b, k);
    AheadAround(a, y, b, k);
    hide Ahead, IndexOf;
  }

  lemma AheadAround(a: seq<Member>, x: seq<Member>, b: seq<Member>, k: string)
    requires |x| <= 1
    ensures Ahead(a + x + b, k) ==
            if IndexOf(a, k) < |a| then Ahead(a, k)
            else if x != [] && x[0].key == k then a
            else a + x + Ahead(b, k)
  {
    AheadConcat(a + x, b, k);
    AheadConcat(a, x, k);
    IndexOfConcat(a, x, k);
    assert x != [] ==> x == [x[0]];
    assert IndexOf(x, k) == if x != [] && x[0].key == k then 0 else |x|;
    assert a + [] == a && x[..|x|] == x && x[..0] == [];
  }

  // ---------- what fitting gives the text routines ----------

  lemma FoundAtKey(ms: seq<Member>, f: Field)
    requires WellFormedMembers(ms) && FitField(ms, f) && Lookup(ms, Name(f)).Some?
    ensures var i := IndexOf(ms, Name(f)); i < |ms| && Locates(ms, i, Name(f)) && Fits(KindOf(f), ms[i].value)
    ensures HasKeyText(Print(Obj(ms)), Name(f)) && ':' !in Name(f)
  {
    var k, i := Name(f), IndexOf(ms, Name(f));
    FitClean(ms, f);
    NamePlain(f);
    hide Name, WellFormedMembers, CleanMembers, Fits, Locates, HasKeyText;
    FirstOccurrence(ms, i, k);
    LocatesHas(ms, i, k);
    NoColon(k);
  }

  lemma LocatesHas(ms: seq<Member>, i: nat, k: string)
    requires i < |ms| && Locates(ms, i, k)
    ensures HasKeyText(Print(Obj(ms)), k)
  {
    hide Print, Find;
  }

  lemma FitClean(ms: seq<Member>, f: Field)
    requires WellFormedMembers(ms) && FitField(ms, f)
    ensures CleanMembers(ms[..IndexOf(ms, Name(f))], Name(f))
    ensures forall m | m in ms && m.key == Name(f) :: Fits(KindOf(f), m.value)
  {
    var k := Name(f);
    hide Name, WellFormedMembers, CleanMember, Fits;
    var a := Ahead(ms, k);
    assert forall j | 0 <= j < |a| :: a[j] in a;
    CleanMembersAll(a, k);
  }

  lemma NotFound(ms: seq<Member>, f: Field)
    requires WellFormedMembers(ms) && FitField(ms, f) && Lookup(ms, Name(f)).None?
    ensures !HasKeyText(Print(Obj(ms)), Name(f))
  {
    FitClean(ms, f);
    NamePlain(f);
    AbsentIndex(ms, Name(f));
    hide Name, WellFormedMembers, CleanMembers;
    AnyOccurrence(ms, Name(f));
  }

  // ---------- the tree edits keep the object fit ----------

  /** Changing what stands in one place, from `x` to `y`, keeps a field's part of fitting. */
  lemma FieldMiddle(a: seq<Member>, x: seq<Member>, y: seq<Member>, b: seq<Member>, g: Field)
    requires |x| <= 1 && |y| <= 1 && FitField(a + x + b, g)
    requires forall m | m in y :: if m.key == Name(g) then Fits(KindOf(g), m.value) else CleanMember(m, Name(g))
    requires (exists m :: m in x && m.key == Name(g)) ==> Droppable(g) || exists m :: m in y && m.key == Name(g)
    ensures FitField(a + y + b, g)
  {
    hide Name, Droppable, KindOf, Fits, CleanMember, Ahead, IndexOf;
    var ms, ms' := a + x + b, a + y + b;
    assert forall m | m in ms' :: m in ms || m in y;
    forall m | m in Ahead(ms', Name(g))
      ensures CleanMember(m, Name(g))
    {
      AheadIn(ms', Name(g));
      if !Droppable(g) {
        AheadMiddle(a, x, y, b, Name(g), m);
      }
    }
  }

  lemma AheadIn(ms: seq<Member>, k: string)
    ensures forall m | m in Ahead(ms, k) :: m in ms && m.key != k
  {
  }

  lemma WithoutFit(ms: seq<Member>, f: Field)
    requires Fit(ms) && Droppable(f)
    ensures Fit(Without(ms, Name(f)))
  {
    var k := Name(f);
    WithoutShape(ms, k);
    hide Name, Droppable, CleanMember, WellFormed, FitField, Without, IndexOf, Lookup, UniqueKeys;
    WithoutLookup(ms, k, k);
    var i := IndexOf(ms, k);
    if i < |ms| {
      var a, x, b := ms[..i], [ms[i]], ms[i + 1..];
      WellFormedMiddle(a, x, [], b);
      forall g: Field
        ensures FitField(a + [] + b, g)
      {
        NamesDiffer(f, g);
        FieldMiddle(a, x, [], b, g);
      }
    }
  }

  lemma WithoutShape(ms: seq<Member>, k: string)
    ensures var i := IndexOf(ms, k);
            if i < |ms| then
              ms == ms[..i] + [ms[i]] + ms[i + 1..] && ms[i].key == k &&
              Without(ms, k) == ms[..i] + [] + ms[i + 1..]
            else Without(ms, k) == ms
  {
    hide IndexOf;
    var i := IndexOf(ms, k);
    if i < |ms| {
      assert ms == ms[..i] + [ms[i]] + ms[i + 1..];
      assert ms[..i] + [] == ms[..i];
    }
  }

  lemma NewMember(f: Field, v: Json, g: Field)
    requires CleanValue(v) && f != g
    ensures CleanMember(Member(Name(f), v), Name(g))
  {
    NamesDiffer(f, g);
    NamePlain(f);
    NamePlain(g);
    hide Name;
    if |Name(f)| > |Name(g)| {
      assert Name(f)[|Name(f)| - |Name(g)| - 1..][0] == Name(f)[|Name(f)| - |Name(g)| - 1];
    }
  }

  /** Replacing what stands in one place by a new member of field `f` keeps the object fit. */
  lemma MiddleFit(a: seq<Member>, x: seq<Member>, f: Field, v: Json, b: seq<Member>)
    requires Fit(a + x + b) && (x == [] || (|x| == 1 && x[0].key == Name(f)))
    requires x == [] ==> Lookup(a + x + b, Name(f)).None?
    requires UniqueKeys(a + [Member(Name(f), v)] + b)
    requires WellFormed(v) && CleanValue(v) && Fits(KindOf(f), v)
    ensures Fit(a + [Member(Name(f), v)] + b)
  {
    var y := [Member(Name(f), v)];
    NamePlain(f);
    LettersEscaped(Name(f));
    assert WellFormedMembers(y);
    WellFormedMiddle(a, x, y, b);
    hide Name, Lookup, CleanValue, Fits, KindOf, WellFormed, WellFormedMembers, UniqueKeys, FitField, PlainKey;
    forall g: Field
      ensures FitField(a + y + b, g)
    {
      MiddleField(a, x, f, v, b, g);
    }
  }

  lemma MiddleField(a: seq<Member>, x: seq<Member>, f: Field, v: Json, b: seq<Member>, g: Field)
    requires FitField(a + x + b, g) && (x == [] || (|x| == 1 && x[0].key == Name(f)))
    requires CleanValue(v) && Fits(KindOf(f), v)
    ensures FitField(a + [Member(Name(f), v)] + b, g)
  {
    hide Name, Droppable, KindOf, Fits, CleanMember, CleanValue, FitField;
    NamesDiffer(f, g);
    var m := Member(Name(f), v);
    if g != f {
      NewMember(f, v, g);
    } else {
      assert m in [m] && m.key == Name(g);
    }
    FieldMiddle(a, x, [m], b, g);
  }

  lemma WellFormedMiddle(a: seq<Member>, x: seq<Member>, y: seq<Member>, b: seq<Member>)
    requires WellFormedMembers(a + x + b) && WellFormedMembers(y)
    ensures WellFormedMembers(a + y + b)
  {
    hide WellFormed, Escaped;
    assert forall m | m in a + y + b :: m in a + x + b || m in y;
  }

  lemma {:induction false} LettersEscaped(k: string)
    requires forall i | 0 <= i < |k| :: Letter(k[i])
    ensures Escaped(k)
  {
    if k != "" {
      LettersEscaped(k[1..]);
    }
  }

  lemma OverwriteFit(ms: seq<Member>, f: Field, v: Json)
    requires Fit(ms) && WellFormed(v) && CleanValue(v) && Fits(KindOf(f), v)
    ensures Fit(Overwrite(ms, Name(f), v))
  {
    var k, i := Name(f), IndexOf(ms, Name(f));
    OverwriteShape(ms, k, v);
    hide Name, Fit, CleanValue, Fits, WellFormed, KindOf, IndexOf, Overwrite;
    FitUnique(ms);
    OverwriteLookup(ms, k, v, k);
    if i < |ms| {
      MiddleFit(ms[..i], [ms[i]], f, v, ms[i + 1..]);
    }
  }

  lemma OverwriteShape(ms: seq<Member>, k: string, v: Json)
    ensures var i := IndexOf(ms, k);
            if i < |ms| then
              ms == ms[..i] + [ms[i]] + ms[i + 1..] && ms[i].key == k &&
              Overwrite(ms, k, v) == ms[..i] + [Member(k, v)] + ms[i + 1..]
            else Overwrite(ms, k, v) == ms
  {
    hide IndexOf;
    var i := IndexOf(ms, k);
    if i < |ms| {
      assert ms == ms[..i] + [ms[i]] + ms[i + 1..];
      assert ms[i := Member(k, v)] == ms[..i] + [Member(k, v)] + ms[i + 1..];
    }
  }

  lemma PutFit(ms: seq<Member>, before: string, f: Field, v: Json)
    requires Fit(ms) && WellFormed(v) && CleanValue(v) && Fits(KindOf(f), v)
    ensures Fit(Put(ms, before, Member(Name(f), v)))
  {
    var k, i := Name(f), IndexOf(ms, before);
    hide Name, Fit, CleanValue, Fits, WellFormed, KindOf;
    FitUnique(ms);
    PutLookup(ms, before, Member(k, v), k);
    if Lookup(ms, k).None? {
      assert ms == ms[..i] + [] + ms[i..];
      MiddleFit(ms[..i], [], f, v, ms[i..]);
    }
  }

  lemma FitUnique(ms: seq<Member>)
    requires Fit(ms)
    ensures UniqueKeys(ms) && WellFormedMembers(ms) && forall f :: FitField(ms, f)
  {
  }

  // ---------- one edit ----------

  lemma PutRefines(ms: seq<Member>, before: Field, f: Field, v: Json)
    requires Fit(ms) && WellFormed(v)
    ensures AddRawText(Print(Obj(ms)), Name(before), Name(f), Print(v)) ==
            Print(Obj(Put(ms, Name(before), Member(Name(f), v))))
  {
    hide Name, Fit, FitField, AddRawText, Print, Lookup, WellFormed, HasKeyText, Put;
    FitUnique(ms);
    if Lookup(ms, Name(f)).Some? {
      FoundAtKey(ms, f);
      AlreadyThere(Print(Obj(ms)), Name(before), Name(f), Print(v));
      PutPresent(ms, Name(before), Member(Name(f), v));
    } else {
      NotFound(ms, f);
      PutMissing(ms, before, f, v);
    }
  }

  lemma PutPresent(ms: seq<Member>, before: string, m: Member)
    requires Lookup(ms, m.key).Some?
    ensures Put(ms, before, m) == ms
  {
  }

  lemma PutMissing(ms: seq<Member>, before: Field, f: Field, v: Json)
    requires WellFormedMembers(ms) && FitField(ms, before)
    requires Lookup(ms, Name(f)).None? && !HasKeyText(Print(Obj(ms)), Name(f))
    ensures AddRawText(Print(Obj(ms)), Name(before), Name(f), Print(v)) ==
            Print(Obj(Put(ms, Name(before), Member(Name(f), v))))
  {
    hide Name, FitField, AddRawText, Print, Lookup, WellFormed, HasKeyText;
    if Lookup(ms, Name(before)).Some? {
      FoundAtKey(ms, before);
      AddBeforeRefines(ms, IndexOf(ms, Name(before)), Name(before), Member(Name(f), v));
    } else {
      NotFound(ms, before);
      AddAtEndRefines(ms, Name(before), Member(Name(f), v));
      AbsentIndex(ms, Name(before));
      assert ms + [Member(Name(f), v)] + [] == ms + [Member(Name(f), v)];
    }
  }

  lemma AlreadyThere(t: string, before: string, key: string, raw: string)
    requires HasKeyText(t, key)
    ensures AddRawText(t, before, key, raw) == t
  {
  }

  lemma AbsentIndex(ms: seq<Member>, k: string)
    requires Lookup(ms, k).None?
    ensures IndexOf(ms, k) == |ms| && ms[..|ms|] == ms && ms[|ms|..] == []
  {
  }

  lemma RemoveOne(ms: seq<Member>, f: Field)
    requires Fit(ms)
    ensures RemoveText(Print(Obj(ms)), Name(f)) == Print(Obj(Without(ms, Name(f))))
  {
    hide Name, Fit, FitField, Print, Lookup, WellFormed, RemoveText, HasKeyText, IntSpan, RemoveSpan, ReplaceStringText,
      ReplaceIntText;
    FitUnique(ms);
    if Lookup(ms, Name(f)).Some? {
      FoundAtKey(ms, f);
      RemoveRefines(ms, IndexOf(ms, Name(f)), Name(f));
    } else {
      NotFound(ms, f);
      NothingToEdit(Print(Obj(ms)), Name(f));
      AbsentIndex(ms, Name(f));
    }
  }

  lemma NothingToEdit(t: string, key: string)
    requires !HasKeyText(t, key)
    ensures RemoveText(t, key) == t && RemoveSpan(t, key).None? && IntSpan(t, key).None?
    ensures forall v :: ReplaceStringText(t, key, v) == t
    ensures forall n :: ReplaceIntText(t, key, n) == t
  {
  }

  lemma ReplaceStringOne(ms: seq<Member>, f: Field, text: string)
    requires Fit(ms) && KindOf(f) == StringKind
    ensures ReplaceStringText(Print(Obj(ms)), Name(f), text) == Print(Obj(Overwrite(ms, Name(f), TextOf(text))))
  {
    hide Name, Fit, FitField, Print, Lookup, WellFormed, ReplaceStringText, HasKeyText, EscapeJson;
    FitUnique(ms);
    if Lookup(ms, Name(f)).Some? {
      FoundAtKey(ms, f);
      LocatesReaches(ms, IndexOf(ms, Name(f)), Name(f));
      ReplaceStringRefines(ms, IndexOf(ms, Name(f)), Name(f), text);
    } else {
      NotFound(ms, f);
      NothingToEdit(Print(Obj(ms)), Name(f));
      AbsentIndex(ms, Name(f));
    }
  }

  lemma ReplaceIntOne(ms: seq<Member>, f: Field, n: int)
    requires Fit(ms) && KindOf(f) == IntKind
    ensures ReplaceIntText(Print(Obj(ms)), Name(f), n) == Print(Obj(Overwrite(ms, Name(f), IntOf(n))))
    ensures IntSpan(Print(Obj(ms)), Name(f)).Some? <==> Lookup(ms, Name(f)).Some?
  {
    hide Name, Fit, FitField, Print, Lookup, WellFormed, ReplaceIntText, IntSpan, HasKeyText, Decimal, IntegerText;
    FitUnique(ms);
    if Lookup(ms, Name(f)).Some? {
      FoundAtKey(ms, f);
      LocatesReaches(ms, IndexOf(ms, Name(f)), Name(f));
      ReplaceIntRefines(ms, IndexOf(ms, Name(f)), Name(f), n);
    } else {
      NotFound(ms, f);
      NothingToEdit(Print(Obj(ms)), Name(f));
      AbsentIndex(ms, Name(f));
    }
  }

  lemma NewValueFits(e: Edit)
    requires ValidEdit(e)
    ensures (e.SetString? || e.ReplaceString?) ==>
              WellFormed(TextOf(e.text)) && CleanValue(TextOf(e.text)) && Fits(KindOf(e.f), TextOf(e.text))
    ensures (e.SetInt? || e.ReplaceInt?) ==>
              WellFormed(IntOf(e.n)) && CleanValue(IntOf(e.n)) && Fits(KindOf(e.f), IntOf(e.n))
    ensures (e.SetBool? || e.AddBool?) ==>
              WellFormed(Bool(e.b)) && CleanValue(Bool(e.b)) && Fits(KindOf(e.f), Bool(e.b))
  {
    if e.SetString? || e.ReplaceString? {
      HarmlessClean(e.text);
    } else if e.SetInt? || e.ReplaceInt? {
      var d := Decimal(e.n);
      assert forall i | 0 <= i < |d| :: d[i] == '-' || IsDigit(d[i]);
    }
  }

  /** One routine call on the object's text is the same edit on the tree, and keeps the object fit. */
  lemma StepRefines(ms: seq<Member>, e: Edit)
    requires Fit(ms) && ValidEdit(e)
    ensures StepText(Print(Obj(ms)), e) == Print(Obj(StepTree(ms, e)))
    ensures Fit(StepTree(ms, e))
  {
    NewValueFits(e);
    hide Name, Fit, FitField, Print, Lookup, WellFormed, CleanValue, Fits, KindOf, Droppable, EscapeJson, Decimal,
      Harmless, AddRawText, RemoveText, ReplaceStringText, ReplaceIntText, IntSpan, HasKeyText, Put, Overwrite, Without;
    match e
    case Keep =>
    case Remove(f) => RemoveOne(ms, f); WithoutFit(ms, f);
    case SetBool(f, b) =>
      RemoveOne(ms, f);
      WithoutFit(ms, f);
      PutRefines(Without(ms, Name(f)), SkinAnimationData, f, Bool(b));
      PutFit(Without(ms, Name(f)), BEFORE, f, Bool(b));
      PrintedScalars("", 0, b);
    case AddBool(before, f, b) =>
      PutRefines(ms, before, f, Bool(b));
      PutFit(ms, Name(before), f, Bool(b));
      PrintedScalars("", 0, b);
    case ReplaceString(f, text) => ReplaceStringOne(ms, f, text); OverwriteFit(ms, f, TextOf(text));
    case ReplaceInt(f, n) => ReplaceIntOne(ms, f, n); OverwriteFit(ms, f, IntOf(n));
    case SetString(f, text) =>
      PrintedScalars(text, 0, true);
      if Lookup(ms, Name(f)).Some? {
        FoundAtKey(ms, f);
        ReplaceStringOne(ms, f, text);
        OverwriteFit(ms, f, TextOf(text));
      } else {
        NotFound(ms, f);
        PutRefines(ms, SkinAnimationData, f, TextOf(text));
        PutFit(ms, BEFORE, f, TextOf(text));
      }
    case SetInt(f, n) =>
      PrintedScalars("", n, true);
      ReplaceIntOne(ms, f, n);
      if Lookup(ms, Name(f)).Some? {
        OverwriteFit(ms, f, IntOf(n));
      } else {
        PutRefines(ms, SkinAnimationData, f, IntOf(n));
        PutFit(ms, BEFORE, f, IntOf(n));
      }
  }

  lemma PrintedScalars(text: string, n: int, b: bool)
    ensures Print(TextOf(text)) == Quoted(EscapeJson(text))
    ensures Print(IntOf(n)) == Decimal(n) && Print(Bool(b)) == BoolText(b)
  {
  }

  // ---------- scripts ----------

  function RunText(t: string, es: seq<Edit>): string
    decreases |es|
  {
    if es == [] then t else RunText(StepText(t, es[0]), es[1..])
  }

  function RunTree(ms: seq<Member>, es: seq<Edit>): seq<Member>
    decreases |es|
  {
    if es == [] then ms else RunTree(StepTree(ms, es[0]), es[1..])
  }

  lemma ObjectEnds(ms: seq<Member>)
    ensures EndsInBrace(Print(Obj(ms)))
  {
  }

  lemma RemoveSpaced(ms: seq<Member>, f: Field, ws: string)
    requires Fit(ms) && Spaces(ws)
    ensures RemoveText(Print(Obj(ms)) + ws, Name(f)) == Print(Obj(Without(ms, Name(f)))) + ws
  {
    hide Name, Fit, FitField, Print, Lookup, WellFormed, RemoveText, RemoveSpan, HasKeyText;
    FitUnique(ms);
    RemoveOne(ms, f);
    if Lookup(ms, Name(f)).Some? {
      FoundAtKey(ms, f);
      RemoveRefines(ms, IndexOf(ms, Name(f)), Name(f));
    } else {
      NotFound(ms, f);
      NothingToEdit(Print(Obj(ms)), Name(f));
    }
    RemoveTail(Print(Obj(ms)), ws, Name(f));
  }

  /** Spaces behind the object's text stay behind it. */
  lemma StepSpaced(ms: seq<Member>, e: Edit, ws: string)
    requires Fit(ms) && ValidEdit(e) && Spaces(ws)
    ensures StepText(Print(Obj(ms)) + ws, e) == Print(Obj(StepTree(ms, e))) + ws
  {
    hide Name, Fit, Print, EscapeJson, Decimal, Harmless, RemoveText, AddRawText, ReplaceStringText, ReplaceIntText,
      IntSpan, Put, Overwrite, Without, Find, FitField, Lookup, KindOf, Droppable;
    StepRefines(ms, e);
    ObjectEnds(ms);
    var t := Print(Obj(ms));
    match e
    case Keep =>
    case Remove(f) => RemoveSpaced(ms, f, ws);
    case SetBool(f, b) =>
      RemoveSpaced(ms, f, ws);
      RemoveOne(ms, f);
      AddTail(Print(Obj(Without(ms, Name(f)))), ws, BEFORE, Name(f), BoolText(b));
    case AddBool(before, f, b) => AddTail(t, ws, Name(before), Name(f), BoolText(b));
    case ReplaceString(f, text) => StringTail(t, ws, Name(f), text);
    case ReplaceInt(f, n) => IntTail(t, ws, Name(f), n);
    case SetString(f, text) =>
      KeyTail(t, ws, Name(f));
      StringTail(t, ws, Name(f), text);
      AddTail(t, ws, BEFORE, Name(f), Quoted(EscapeJson(text)));
    case SetInt(f, n) =>
      IntTail(t, ws, Name(f), n);
      AddTail(t, ws, BEFORE, Name(f), Decimal(n));
  }

  /** Any script of valid edits run on the text of a fitting object, spaces behind it or not, yields
      the text of the object the script makes of the tree, and that object fits again. */
  lemma {:induction false} ScriptRefines(ms: seq<Member>, es: seq<Edit>, ws: string)
    requires Fit(ms) && Spaces(ws) && forall e | e in es :: ValidEdit(e)
    ensures RunText(Print(Obj(ms)) + ws, es) == Print(Obj(RunTree(ms, es))) + ws
    ensures Fit(RunTree(ms, es))
    decreases |es|
  {
    hide Fit, ValidEdit, StepText, StepTree, Print, Spaces;
    if es != [] {
      StepRefines(ms, es[0]);
      StepSpaced(ms, es[0], ws);
      ScriptRefines(StepTree(ms, es[0]), es[1..], ws);
    }
  }

  lemma {:induction false} RunTextConcat(t: string, a: seq<Edit>, b: seq<Edit>)
    ensures RunText(t, a + b) == RunText(RunText(t, a), b)
    decreases |a|
  {
    hide StepText;
    if a == [] {
      assert a + b == b;
    } else {
      assert (a + b)[1..] == a[1..] + b;
      RunTextConcat(StepText(t, a[0]), a[1..], b);
    }
  }

  /** What one edit makes of the value of field `f`. */
  function Effect(e: Edit, f: Field, v: Option<Json>): Option<Json> {
    if e.Keep? || e.f != f then v
    else match e
      case SetString(_, text) => Some(TextOf(text))
      case SetInt(_, n) => Some(IntOf(n))
      case SetBool(_, b) => Some(Bool(b))
      case Remove(_) => None
      case AddBool(_, _, b) => if v.None? then Some(Bool(b)) else v
      case ReplaceString(_, text) => if v.None? then None else Some(TextOf(text))
      case ReplaceInt(_, n) => if v.None? then None else Some(IntOf(n))
  }

  function RunEffect(es: seq<Edit>, f: Field, v: Option<Json>): Option<Json>
    decreases |es|
  {
    if es == [] then v else RunEffect(es[1..], f, Effect(es[0], f, v))
  }

  lemma StepLookup(ms: seq<Member>, e: Edit, f: Field)
    requires UniqueKeys(ms)
    ensures UniqueKeys(StepTree(ms, e))
    ensures Lookup(StepTree(ms, e), Name(f)) == Effect(e, f, Lookup(ms, Name(f)))
  {
    hide Name, Lookup, TextOf, IntOf, Put, Overwrite, Without, UniqueKeys;
    if !e.Keep? {
      var k, q := Name(e.f), Name(f);
      NamesDiffer(e.f, f);
      match e
      case SetString(_, text) =>
        OverwriteLookup(ms, k, TextOf(text), q);
        PutLookup(ms, BEFORE, Member(k, TextOf(text)), q);
      case SetInt(_, n) =>
        OverwriteLookup(ms, k, IntOf(n), q);
        PutLookup(ms, BEFORE, Member(k, IntOf(n)), q);
      case SetBool(_, b) =>
        WithoutLookup(ms, k, q);
        PutLookup(Without(ms, k), BEFORE, Member(k, Bool(b)), q);
      case Remove(_) => WithoutLookup(ms, k, q);
      case AddBool(before, _, b) => PutLookup(ms, Name(before), Member(k, Bool(b)), q);
      case ReplaceString(_, text) => OverwriteLookup(ms, k, TextOf(text), q);
      case ReplaceInt(_, n) => OverwriteLookup(ms, k, IntOf(n), q);
    }
  }

  /** The names of all fields: the keys no script goes beyond. */
  ghost const FIELD_NAMES: set<string> := set f: Field | true :: Name(f)

  lemma StepOthers(ms: seq<Member>, e: Edit)
    ensures Others(StepTree(ms, e), FIELD_NAMES) == Others(ms, FIELD_NAMES)
  {
    hide Name, Lookup, TextOf, IntOf, Put, Overwrite, Without, Others;
    if !e.Keep? {
      var k := Name(e.f);
      assert k in FIELD_NAMES;
      match e
      case SetString(_, text) => EditsKeepOthers(ms, BEFORE, k, TextOf(text), FIELD_NAMES);
      case SetInt(_, n) => EditsKeepOthers(ms, BEFORE, k, IntOf(n), FIELD_NAMES);
      case SetBool(_, b) =>
        EditsKeepOthers(ms, BEFORE, k, Bool(b), FIELD_NAMES);
        EditsKeepOthers(Without(ms, k), BEFORE, k, Bool(b), FIELD_NAMES);
      case Remove(_) => EditsKeepOthers(ms, BEFORE, k, Null, FIELD_NAMES);
      case AddBool(before, _, b) => EditsKeepOthers(ms, Name(before), k, Bool(b), FIELD_NAMES);
      case ReplaceString(_, text) => EditsKeepOthers(ms, BEFORE, k, TextOf(text), FIELD_NAMES);
      case ReplaceInt(_, n) => EditsKeepOthers(ms, BEFORE, k, IntOf(n), FIELD_NAMES);
    }
  }

  /** Over a whole script each field's value follows its own edits only, and every member that is
      no field stays, unchanged and in order. */
  lemma {:induction false} ScriptLookup(ms: seq<Member>, es: seq<Edit>, f: Field)
    requires UniqueKeys(ms)
    ensures Lookup(RunTree(ms, es), Name(f)) == RunEffect(es, f, Lookup(ms, Name(f)))
    ensures Others(RunTree(ms, es), FIELD_NAMES) == Others(ms, FIELD_NAMES)
    decreases |es|
  {
    hide Name, Lookup, StepTree, Effect, Others, UniqueKeys;
    if es != [] {
      StepLookup(ms, es[0], f);
      StepOthers(ms, es[0]);
      ScriptLookup(StepTree(ms, es[0]), es[1..], f);
    }
  }

  lemma {:induction false} RunEffectConcat(a: seq<Edit>, b: seq<Edit>, f: Field, v: Option<Json>)
    ensures RunEffect(a + b, f, v) == RunEffect(b, f, RunEffect(a, f, v))
    decreases |a|
  {
    hide Effect;
    if a == [] {
      assert a + b == b;
    } else {
      assert (a + b)[1..] == a[1..] + b;
      RunEffectConcat(a[1..], b, f, Effect(a[0], f, v));
    }
  }

  predicate Touches(e: Edit, f: Field) {
    !e.Keep? && e.f == f
  }

  lemma {:induction false} Untouched(es: seq<Edit>, f: Field, v: Option<Json>)
    requires forall i | 0 <= i < |es| :: !Touches(es[i], f)
    ensures RunEffect(es, f, v) == v
    decreases |es|
  {
    if es != [] {
      assert !Touches(es[0], f);
      Untouched(es[1..], f, v);
    }
  }

  /** The only edit of a script that touches a field decides its value. */
  lemma OnlyEdit(es: seq<Edit>, i: nat, f: Field, v: Option<Json>)
    requires i < |es| && forall j | 0 <= j < |es| && j != i :: !Touches(es[j], f)
    ensures RunEffect(es, f, v) == Effect(es[i], f, v)
  {
    hide Effect, Touches;
    assert es == es[..i] + ([es[i]] + es[i + 1..]);
    RunEffectConcat(es[..i], [es[i]] + es[i + 1..], f, v);
    Untouched(es[..i], f, v);
    assert ([es[i]] + es[i + 1..])[1..] == es[i + 1..];
    Untouched(es[i + 1..], f, Effect(es[i], f, v));
  }

  // ---------- exactly when adding a missing field works ----------

  /** The edits that add a missing field. */
  predicate Adds(e: Edit) {
    e.SetString? || e.SetInt? || e.SetBool? || e.AddBool?
  }

  /** The value an edit gives a field that is missing. */
  function Added(e: Edit): Json
    requires Adds(e)
  {
    match e
    case SetString(_, text) => TextOf(text)
    case SetInt(_, n) => IntOf(n)
    case SetBool(_, b) => Bool(b)
    case AddBool(_, _, b) => Bool(b)
  }

  /** The field a missing one is added before. */
  function Anchor(e: Edit): Field {
    if e.AddBool? then e.before else SkinAnimationData
  }

  lemma ShortResult(t: string, e: Edit)
    requires Adds(e) && PlainKey(Name(e.f)) && HasKeyText(t, Name(e.f))
    ensures |StepText(t, e)| < |t| + |MemberText(Member(Name(e.f), Added(e)))|
  {
    hide Name, Find, Decimal, EscapeJson, PlainKey, RemoveText, AddRawText, ReplaceStringText, ReplaceIntText;
    if e.SetBool? {
      RemovedLength(t, Name(e.f));
      AddedText(RemoveText(t, Name(e.f)), BEFORE, Name(e.f), BoolText(e.b));
    } else {
      ReplacedLength(t, e);
      AddedText(t, Name(Anchor(e)), Name(e.f), Print(Added(e)));
    }
  }

  lemma ReplacedLength(t: string, e: Edit)
    ensures e.SetString? ==> |ReplaceStringText(t, Name(e.f), e.text)| <= |t| + |EscapeJson(e.text)|
    ensures e.SetInt? ==> |ReplaceIntText(t, Name(e.f), e.n)| <= |t| + |Decimal(e.n)|
  {
    hide Name, Find, Decimal, EscapeJson;
  }

  lemma AddedText(t: string, before: string, key: string, raw: string)
    ensures HasKeyText(t, key) ==> AddRawText(t, before, key, raw) == t
    ensures |AddRawText(t, before, key, raw)| <= |t| + |key| + |raw| + 4
  {
    hide Find;
  }

  /** A removal takes the quoted key and its colon at least, or leaves the key where it is. */
  lemma RemovedLength(t: string, key: string)
    requires PlainKey(key) && HasKeyText(t, key)
    ensures RemoveText(t, key) == t || |RemoveText(t, key)| + |key| + 3 <= |t|
  {
    hide ValueEnd, BackOverSpaces, PlainKey;
    var k := Find(t, Quoted(key), 0).value;
    if Find(t, ":", k).Some? {
      FindIsFirst(t, Quoted(key), 0);
      FindIsFirst(t, ":", k);
      CharAt(t, Find(t, ":", k).value, ':');
      ColonBehind(t, key, k, Find(t, ":", k).value);
    }
  }

  /** For a missing field the routine adds the member where it belongs exactly when the quoted name
      occurs nowhere in the object and no string or key ahead of the anchor ends in the anchor's
      quoted name; otherwise it edits other text, or puts the member inside it. */
  lemma AddingIsExact(ms: seq<Member>, e: Edit)
    requires Adds(e) && WellFormedMembers(ms) && Lookup(ms, Name(e.f)).None?
    ensures StepText(Print(Obj(ms)), e) == Print(Obj(StepTree(ms, e))) <==>
            CleanMembers(ms, Name(e.f)) && CleanMembers(Ahead(ms, Name(Anchor(e))), Name(Anchor(e)))
  {
    var t, m, before := Print(Obj(ms)), Member(Name(e.f), Added(e)), Name(Anchor(e));
    StepPuts(ms, e);
    NamePlain(e.f);
    NamePlain(Anchor(e));
    hide Name, StepText, StepTree, Print, WellFormed, HasKeyText, CleanMembers, PlainKey, Added, MemberText;
    AnyOccurrence(ms, Name(e.f));
    if CleanMembers(ms, Name(e.f)) {
      AddExactly(ms, before, m);
      StepAdds(t, e);
    } else {
      ShortResult(t, e);
      WithLength(ms, IndexOf(ms, before), m);
    }
  }

  lemma StepPuts(ms: seq<Member>, e: Edit)
    requires Adds(e) && Lookup(ms, Name(e.f)).None?
    ensures StepTree(ms, e) == With(ms, IndexOf(ms, Name(Anchor(e))), Member(Name(e.f), Added(e)))
  {
    hide Name;
  }

  lemma StepAdds(t: string, e: Edit)
    requires Adds(e) && !HasKeyText(t, Name(e.f))
    ensures StepText(t, e) == AddRawText(t, Name(Anchor(e)), Name(e.f), Print(Added(e)))
  {
    hide Name, Find, AddRawText, Decimal, EscapeJson;
  }

  /** A display name does reach the failing case: where it equals the missing field's name, the edit
      overwrites text inside the object; where it equals the anchor's name, the field is put in
      between the display name's key and its text. */
  lemma NameCollision(e: Edit, g: Field)
    requires Adds(e) && e.f != ThirdPartyName && Anchor(e) != ThirdPartyName && (g == e.f || g == Anchor(e))
    ensures var ms := [Member(Name(ThirdPartyName), TextOf(Name(g)))];
            StepText(Print(Obj(ms)), e) != Print(Obj(StepTree(ms, e)))
  {
    var m := Member(Name(ThirdPartyName), TextOf(Name(g)));
    CollidingText(g);
    NamesDiffer(ThirdPartyName, e.f);
    NamesDiffer(ThirdPartyName, Anchor(e));
    hide Name, StepText, StepTree, Print, TextOf, Escaped, WellFormed, Clean;
    assert !CleanMembers([m], Name(g));
    MissingKey(m, Name(e.f));
    MissingKey(m, Name(Anchor(e)));
    AddingIsExact([m], e);
  }

  lemma CollidingText(f: Field)
    ensures !Clean(TextOf(Name(f)), Name(f))
    ensures WellFormedMembers([Member(Name(ThirdPartyName), TextOf(Name(f)))])
  {
    hide Name, Escaped;
    NamePlain(f);
    NamePlain(ThirdPartyName);
    EscapePlain(Name(f));
    LettersEscaped(Name(f));
    LettersEscaped(Name(ThirdPartyName));
  }

  lemma MissingKey(m: Member, k: string)
    requires m.key != k
    ensures Lookup([m], k).None? && Ahead([m], k) == [m]
  {
  }

  lemma NotEnd(a: string, b: string)
    requires a != b && forall i | 0 <= i < |a| :: Letter(a[i])
    ensures !EndsQuoted(a, b)
  {
    if |a| > |b| {
      assert a[|a| - |b| - 1..][0] == a[|a| - |b| - 1];
    }
  }

  /** Nor is a removal safe from a display name equal to the removed field's name: it takes out that
      name and all up to the end of the field, whatever the field's value. */
  lemma DisplayNameRemoval(f: Field, v: Json)
    requires Droppable(f) && WellFormed(v)
    ensures var ms := [Member(Name(ThirdPartyName), TextOf(Name(f))), Member(Name(f), v)];
            StepText(Print(Obj(ms)), Remove(f)) != Print(Obj(StepTree(ms, Remove(f))))
  {
    hide Name, Print, RemoveText, TextOf, WellFormed, EndsQuoted, PlainKey, Locates, Reaches, CleanMembers, Without,
      Droppable;
    var a, b := Member(Name(ThirdPartyName), TextOf(Name(f))), Member(Name(f), v);
    TwoMembers(f, v);
    RemovalMisses(a, b);
    WithoutSecond(a, b);
  }

  lemma RemovalMisses(a: Member, b: Member)
    requires WellFormedMembers([a, b]) && PlainKey(b.key) && a.value == Str(b.key)
    requires !EndsQuoted(a.key, b.key) && CleanMembers([], b.key)
    ensures RemoveText(Print(Obj([a, b])), b.key) != Print(Obj(Dropped([a, b], 1)))
  {
    hide Print, RemoveText, WellFormed, EndsQuoted, PlainKey, Locates, Reaches, CleanMembers;
    var ms := [a, b];
    assert ms[..0] == [];
    StringBefore(ms, 1, b.key);
    RemoveReaching(ms, 1, b.key);
  }

  lemma TwoMembers(f: Field, v: Json)
    requires Droppable(f) && WellFormed(v)
    ensures TextOf(Name(f)) == Str(Name(f)) && PlainKey(Name(f)) && Name(f) != Name(ThirdPartyName)
    ensures WellFormedMembers([Member(Name(ThirdPartyName), TextOf(Name(f))), Member(Name(f), v)])
    ensures !EndsQuoted(Name(ThirdPartyName), Name(f)) && CleanMembers([], Name(f))
  {
    NamesDiffer(ThirdPartyName, f);
    NamePlain(f);
    NamePlain(ThirdPartyName);
    EscapePlain(Name(f));
    LettersEscaped(Name(f));
    LettersEscaped(Name(ThirdPartyName));
    NotEnd(Name(ThirdPartyName), Name(f));
    hide Name, Escaped, EndsQuoted;
  }

  lemma WithoutSecond(a: Member, b: Member)
    requires a.key != b.key
    ensures Without([a, b], b.key) == Dropped([a, b], 1)
  {
    assert [a, b][1..] == [b];
    assert IndexOf([a, b], b.key) == 1;
  }
}
