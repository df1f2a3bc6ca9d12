/** Edits on the member list of an object, and what they do to lookups, to key uniqueness and to the
    members they do not name. */
module TreeEdit {
  import opened Wrappers
  import opened JsonTree

  function Without(ms: seq<Member>, k: string): (r: seq<Member>) {
    var i := IndexOf(ms, k);
    if i < |ms| then ms[..i] + ms[i + 1..] else ms
  }

  function Overwrite(ms: seq<Member>, k: string, v: Json): (r: seq<Member>) {
    var i := IndexOf(ms, k);
    if i < |ms| then ms[i := Member(k, v)] else ms
  }

  /** Adds the member unless its key is there: before the named member, or at the end. */
  function Put(ms: seq<Member>, before: string, m: Member): (r: seq<Member>) {
    var i := IndexOf(ms, before);
    if Lookup(ms, m.key).Some? then ms else ms[..i] + [m] + ms[i..]
  }

  lemma LookupAt(ms: seq<Member>, i: nat)
    requires UniqueKeys(ms) && i < |ms|
    ensures IndexOf(ms, ms[i].key) == i && Lookup(ms, ms[i].key) == Some(ms[i].value)
  {
  }

  lemma LookupIs(ms: seq<Member>, k: string, r: Option<Json>)
    requires UniqueKeys(ms)
    requires match r
             case None => forall i | 0 <= i < |ms| :: ms[i].key != k
             case Some(v) => exists i | 0 <= i < |ms| :: ms[i] == Member(k, v)
    ensures Lookup(ms, k) == r
  {
    if r.Some? {
      var i :| 0 <= i < |ms| && ms[i] == Member(k, r.value);
      LookupAt(ms, i);
    }
  }

  lemma LookupSame(ms: seq<Member>, ms': seq<Member>, k: string)
    requires UniqueKeys(ms) && UniqueKeys(ms')
    requires forall m: Member | m.key == k :: m in ms <==> m in ms'
    ensures Lookup(ms, k) == Lookup(ms', k)
  {
    var i := IndexOf(ms, k);
    if i < |ms| {
      assert ms[i] in ms;
      var j :| 0 <= j < |ms'| && ms'[j] == ms[i];
      LookupAt(ms', j);
    }
  }

  lemma SplitUnique(a: seq<Member>, m: Member, b: seq<Member>)
    requires UniqueKeys(a + [m] + b)
    ensures UniqueKeys(a + b) && m !in a && m !in b
    ensures forall x | x in a || x in b :: x.key != m.key
  {
    var ms := a + [m] + b;
    assert ms[|a|] == m;
    assert forall i | 0 <= i < |a| :: ms[i] == a[i];
    assert forall i | 0 <= i < |b| :: ms[|a| + 1 + i] == b[i];
    assert forall i | 0 <= i < |a + b| :: (a + b)[i] == ms[if i < |a| then i else i + 1];
  }

  lemma JoinUnique(a: seq<Member>, m: Member, b: seq<Member>)
    requires UniqueKeys(a + b) && forall x | x in a + b :: x.key != m.key
    ensures UniqueKeys(a + [m] + b)
  {
    var ms := a + [m] + b;
    assert forall i | 0 <= i < |ms| && i != |a| :: ms[i] == (a + b)[if i < |a| then i else i - 1];
  }

  lemma WithoutLookup(ms: seq<Member>, k: string, q: string)
    requires UniqueKeys(ms)
    ensures UniqueKeys(Without(ms, k))
    ensures Lookup(Without(ms, k), q) == if q == k then None else Lookup(ms, q)
  {
    var i := IndexOf(ms, k);
    if i < |ms| {
      var a, m, b := ms[..i], ms[i], ms[i + 1..];
      assert ms == a + [m] + b;
      SplitUnique(a, m, b);
      hide Lookup, IndexOf, UniqueKeys;
      if q == k {
        LookupIs(a + b, k, None);
      } else {
        LookupSame(ms, a + b, q);
      }
    }
  }

  lemma OverwriteLookup(ms: seq<Member>, k: string, v: Json, q: string)
    requires UniqueKeys(ms)
    ensures UniqueKeys(Overwrite(ms, k, v))
    ensures Lookup(Overwrite(ms, k, v), q) == if q == k && Lookup(ms, k).Some? then Some(v) else Lookup(ms, q)
  {
    var i, ms' := IndexOf(ms, k), Overwrite(ms, k, v);
    if i < |ms| {
      var a, m, b := ms[..i], ms[i], ms[i + 1..];
      assert ms == a + [m] + b && ms' == a + [Member(k, v)] + b;
      SplitUnique(a, m, b);
      JoinUnique(a, Member(k, v), b);
      if q == k {
        LookupAt(ms', i);
      } else {
        LookupSame(ms, ms', q);
      }
    }
  }

  lemma PutLookup(ms: seq<Member>, before: string, m: Member, q: string)
    requires UniqueKeys(ms)
    ensures UniqueKeys(Put(ms, before, m))
    ensures Lookup(Put(ms, before, m), q) == if q == m.key && Lookup(ms, q).None? then Some(m.value) else Lookup(ms, q)
  {
    if Lookup(ms, m.key).None? {
      InsertLookup(ms, IndexOf(ms, before), m, q);
    }
  }

  lemma InsertLookup(ms: seq<Member>, i: nat, m: Member, q: string)
    requires UniqueKeys(ms) && i <= |ms| && Lookup(ms, m.key).None?
    ensures UniqueKeys(ms[..i] + [m] + ms[i..])
    ensures Lookup(ms[..i] + [m] + ms[i..], q) == if q == m.key then Some(m.value) else Lookup(ms, q)
  {
    var a, b := ms[..i], ms[i..];
    assert ms == a + b;
    JoinUnique(a, m, b);
    if q == m.key {
      LookupAt(a + [m] + b, i);
    } else {
      LookupSame(ms, a + [m] + b, q);
    }
  }

  // ---------- the members an edit does not name ----------

  function Others(ms: seq<Member>, keys: set<string>): (r: seq<Member>) {
    if ms == [] then []
    else (if ms[0].key in keys then [] else [ms[0]]) + Others(ms[1..], keys)
  }

  lemma {:induction false} OthersConcat(a: seq<Member>, b: seq<Member>, keys: set<string>)
    ensures Others(a + b, keys) == Others(a, keys) + Others(b, keys)
  {
    if a == [] {
      assert a + b == b;
    } else {
      OthersConcat(a[1..], b, keys);
      assert (a + b)[1..] == a[1..] + b && (a + b)[0] == a[0];
      Concat3(if a[0].key in keys then [] else [a[0]], Others(a[1..], keys), Others(b, keys));
    }
  }

  /** An edit of a named member leaves all other members as they are, in their order. */
  lemma OthersKept(a: seq<Member>, x: seq<Member>, y: seq<Member>, b: seq<Member>, keys: set<string>)
    requires Others(x, keys) == Others(y, keys)
    ensures Others(a + x + b, keys) == Others(a + y + b, keys)
  {
    OthersConcat(a, x, keys);
    OthersConcat(a + x, b, keys);
    OthersConcat(a, y, keys);
    OthersConcat(a + y, b, keys);
  }

  lemma PutKeepsOthers(ms: seq<Member>, p: nat, m: Member, keys: set<string>)
    requires p <= |ms| && m.key in keys
    ensures Others(ms[..p] + [m] + ms[p..], keys) == Others(ms, keys)
  {
    assert Others([m], keys) == [];
    assert ms == ms[..p] + [] + ms[p..];
    OthersKept(ms[..p], [], [m], ms[p..], keys);
  }

  lemma EditsKeepOthers(ms: seq<Member>, before: string, k: string, v: Json, keys: set<string>)
    requires k in keys
    ensures Others(Without(ms, k), keys) == Others(ms, keys)
    ensures Others(Overwrite(ms, k, v), keys) == Others(ms, keys)
    ensures Others(Put(ms, before, Member(k, v)), keys) == Others(ms, keys)
  {
    var i, p := IndexOf(ms, k), IndexOf(ms, before);
    assert Others([Member(k, v)], keys) == [];
    if i < |ms| {
      var a, m, b := ms[..i], [ms[i]], ms[i + 1..];
      assert ms == a + m + b;
      assert Others(m, keys) == [];
      OthersKept(a, m, [], b, keys);
      assert a + [] + b == Without(ms, k);
      OthersKept(a, m, [Member(k, v)], b, keys);
      assert a + [Member(k, v)] + b == Overwrite(ms, k, v);
    }
    PutKeepsOthers(ms, p, Member(k, v), keys);
  }
}
