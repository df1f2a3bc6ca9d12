/** The type index scripts/generate_protocol_artifacts.py emits: interned schemas in raw string
    literals, entries sorted by version and name, and the std::lower_bound lookup over them.
    Versions and names are ASCII, so that Python and C++ order them alike. */
module TypeIndex {
  import opened Wrappers
  import opened Text

  // ---------- orders ----------

  /** Python's and C++'s order of strings: by the first difference, a prefix first. */
  predicate Less(a: string, b: string) {
    b != "" && (a == "" || a[0] < b[0] || (a[0] == b[0] && Less(a[1..], b[1..])))
  }

  lemma {:induction false} LessTrichotomy(a: string, b: string)
    ensures !(Less(a, b) && Less(b, a))
    ensures Less(a, b) || Less(b, a) || a == b
    ensures a == b ==> !Less(a, b)
  {
    if a != "" && b != "" {
      LessTrichotomy(a[1..], b[1..]);
      assert a == [a[0]] + a[1..] && b == [b[0]] + b[1..];
    }
  }

  lemma {:induction false} LessTransitive(a: string, b: string, c: string)
    requires Less(a, b) && Less(b, c)
    ensures Less(a, c)
  {
    if a != "" && a[0] == b[0] == c[0] {
      LessTransitive(a[1..], b[1..], c[1..]);
    }
  }

  /** A strict order in which incomparable elements can stand for each other. */
  ghost predicate Order<T(!new)>(less: (T, T) -> bool) {
    && (forall a, b :: less(a, b) ==> !less(b, a))
    && (forall a, b, c :: !less(b, a) && !less(c, b) ==> !less(c, a))
  }

  ghost predicate Ascending<T(!new)>(less: (T, T) -> bool, r: seq<T>) {
    forall i, j | 0 <= i < j < |r| :: !less(r[j], r[i])
  }

  datatype Entry = Entry(version: string, name: string, schemaIndex: nat)

  /** The order of pairs of version and name. */
  predicate KeyLess(v: string, n: string, w: string, m: string) {
    Less(v, w) || (v == w && Less(n, m))
  }

  predicate EntryLess(a: Entry, b: Entry) {
    KeyLess(a.version, a.name, b.version, b.name)
  }

  lemma KeyTrichotomy(v: string, n: string, w: string, m: string)
    ensures !(KeyLess(v, n, w, m) && KeyLess(w, m, v, n))
    ensures KeyLess(v, n, w, m) || KeyLess(w, m, v, n) || (v == w && n == m)
    ensures v == w && n == m ==> !KeyLess(v, n, w, m)
  {
    LessTrichotomy(v, w);
    LessTrichotomy(n, m);
  }

  lemma KeyTransitive(v: string, n: string, w: string, m: string, x: string, l: string)
    requires KeyLess(v, n, w, m) && KeyLess(w, m, x, l)
    ensures KeyLess(v, n, x, l)
  {
    hide Less;
    if Less(v, w) && Less(w, x) {
      LessTransitive(v, w, x);
    }
    if Less(n, m) && Less(m, l) {
      LessTransitive(n, m, l);
    }
  }

  lemma EntriesOrdered()
    ensures Order(EntryLess)
  {
    hide KeyLess;
    forall a: Entry, b: Entry
      ensures EntryLess(a, b) ==> !EntryLess(b, a)
    {
      KeyTrichotomy(a.version, a.name, b.version, b.name);
    }
    forall a: Entry, b: Entry, c: Entry | !EntryLess(b, a) && !EntryLess(c, b)
      ensures !EntryLess(c, a)
    {
      KeyTrichotomy(a.version, a.name, b.version, b.name);
      KeyTrichotomy(b.version, b.name, c.version, c.name);
      KeyTrichotomy(a.version, a.name, c.version, c.name);
      if EntryLess(c, a) && EntryLess(a, b) {
        KeyTransitive(c.version, c.name, a.version, a.name, b.version, b.name);
      }
    }
  }

  lemma StringsOrdered()
    ensures Order(Less)
  {
    hide Less;
    forall a: string, b: string
      ensures Less(a, b) ==> !Less(b, a)
    {
      LessTrichotomy(a, b);
    }
    forall a: string, b: string, c: string | !Less(b, a) && !Less(c, b)
      ensures !Less(c, a)
    {
      LessTrichotomy(a, b);
      LessTrichotomy(b, c);
      if Less(c, a) && Less(a, b) {
        LessTransitive(c, a, b);
      }
    }
  }

  // ---------- sorting ----------

  /** Where the sort of the standard library puts one more element: behind its equals. */
  function Insert<T>(less: (T, T) -> bool, x: T, r: seq<T>): (s: seq<T>)
    ensures multiset(s) == multiset(r) + multiset{x}
  {
    if r == [] || less(x, r[0]) then [x] + r
    else
      assert r == [r[0]] + r[1..];
      [r[0]] + Insert(less, x, r[1..])
  }

  lemma {:induction false} InsertAscending<T(!new)>(less: (T, T) -> bool, x: T, r: seq<T>)
    requires Order(less) && Ascending(less, r)
    ensures Ascending(less, Insert(less, x, r))
  {
    var s := Insert(less, x, r);
    if r == [] {
    } else if less(x, r[0]) {
      forall j | 1 <= j < |s|
        ensures !less(s[j], x)
      {
        assert !less(r[0], x) && (j > 1 ==> !less(r[j - 1], r[0]));
      }
    } else {
      InsertAscending(less, x, r[1..]);
      var t := Insert(less, x, r[1..]);
      forall j | 0 <= j < |t|
        ensures !less(t[j], r[0])
      {
        assert t[j] in multiset(t);
        if t[j] != x {
          assert t[j] in multiset(r[1..]);
          var k :| 0 <= k < |r[1..]| && r[1..][k] == t[j];
          assert r[k + 1] == t[j];
        }
      }
    }
  }

  method SortBy<T(!new)>(less: (T, T) -> bool, xs: seq<T>) returns (r: seq<T>)
    requires Order(less)
    ensures Ascending(less, r) && multiset(r) == multiset(xs)
  {
    r := [];
    for i := 0 to |xs|
      invariant Ascending(less, r) && multiset(r) == multiset(xs[..i])
    {
      InsertAscending(less, xs[i], r);
      r := Insert(less, xs[i], r);
      assert xs[..i + 1] == xs[..i] + [xs[i]];
    }
    assert xs[..|xs|] == xs;
  }

  // ---------- raw string literals ----------

  const OPENING := "R\"BEDROCKJSON("
  const CLOSING := ")BEDROCKJSON\""

  /** raw_json_literal; None where it raises. */
  function RawJsonLiteral(value: string): Option<string> {
    if Find(value, CLOSING, 0).Some? then None else Some(OPENING + value + CLOSING)
  }

  /** What a C++ compiler reads: the text from the opening delimiter to the first closing one. */
  function ReadRaw(literal: string): Option<string> {
    if !(OPENING <= literal) then None
    else
      var e := Find(literal, CLOSING, |OPENING|);
      if e.None? then None else Some(literal[|OPENING|..e.value])
  }

  lemma ClosingOnce(k: nat)
    requires 1 <= k < |CLOSING|
    ensures CLOSING[0] == ')' && CLOSING[k] != ')'
  {
    assert CLOSING == [')', 'B', 'E', 'D', 'R', 'O', 'C', 'K', 'J', 'S', 'O', 'N', '"'];
  }

  lemma AtChar(t: string, p: nat, s: string, k: nat)
    requires k < |s| && p + k < |t|
    ensures At(t, p, s) ==> t[p + k] == s[k]
  {
    if At(t, p, s) {
      assert t[p..p + |s|][k] == t[p + k];
    }
  }

  /** In the literal, the closing delimiter matches where it matches in the value, and after it. */
  lemma ClosingIn(value: string, p: nat)
    requires p < |value|
    ensures At(OPENING + value + CLOSING, |OPENING| + p, CLOSING) <==> At(value, p, CLOSING)
  {
    var lit, n := OPENING + value + CLOSING, |OPENING|;
    assert lit[n..n + |value|] == value;
    if p + |CLOSING| <= |value| {
      assert lit[n + p..n + p + |CLOSING|] == value[p..p + |CLOSING|];
    } else {
      var k := |value| - p;
      ClosingOnce(k);
      assert lit[n + |value|] == CLOSING[0];
      AtChar(lit, n + p, CLOSING, k);
    }
  }

  /** A raw literal is read back as its value exactly when the generator accepts the value. */
  lemma RawReadsExactly(value: string)
    ensures ReadRaw(OPENING + value + CLOSING) == Some(value) <==> RawJsonLiteral(value).Some?
  {
    var lit, n := OPENING + value + CLOSING, |OPENING|;
    hide Find;
    FindIsFirst(value, CLOSING, 0);
    FindIsFirst(lit, CLOSING, n);
    assert At(lit, n + |value|, CLOSING);
    assert OPENING <= lit && lit[n..n + |value|] == value;
    var v := Find(value, CLOSING, 0);
    if v.Some? {
      ClosingIn(value, v.value);
      var e := Find(lit, CLOSING, n);
      assert e.Some? && e.value <= n + v.value;
    } else {
      forall p | n <= p < n + |value|
        ensures !At(lit, p, CLOSING)
      {
        ClosingIn(value, p - n);
      }
      FindIs(lit, CLOSING, n, n + |value|);
    }
  }

  // ---------- the generated table ----------

  /** The emitted arrays: the schemas as raw literals, and the entries that index them. */
  datatype Table = Table(literals: seq<string>, entries: seq<Entry>)

  ghost predicate HasEntry(es: seq<Entry>, v: string, n: string) {
    exists i | 0 <= i < |es| :: es[i].version == v && es[i].name == n
  }

  /** An entry stands for a schema of the source maps. */
  ghost predicate Stands<S(!new)>(e: Entry, literals: seq<string>, types: map<string, map<string, S>>,
                                  compact: S -> string)
  {
    && e.version in types && e.name in types[e.version] && e.schemaIndex < |literals|
    && ReadRaw(literals[e.schemaIndex]) == Some(compact(types[e.version][e.name]))
  }

  ghost predicate Faithful<S(!new)>(t: Table, types: map<string, map<string, S>>, compact: S -> string) {
    && Ascending(EntryLess, t.entries)
    && (forall e | e in t.entries :: Stands(e, t.literals, types, compact))
    && (forall v, n | v in types && n in types[v] :: HasEntry(t.entries, v, n))
  }

  /** What the index replaces: the nested map of compact schema texts. */
  function Source<S>(types: map<string, map<string, S>>, compact: S -> string, v: string, n: string): Option<string> {
    if v in types && n in types[v] then Some(compact(types[v][n])) else None
  }

  // ---------- std::lower_bound and the lookup ----------

  /** The first entry not below the wanted key, by halving the range. */
  method LowerBound(es: seq<Entry>, version: string, name: string) returns (first: nat)
    requires Ascending(EntryLess, es)
    ensures first <= |es|
    ensures forall i | 0 <= i < first :: KeyLess(es[i].version, es[i].name, version, name)
    ensures forall i | first <= i < |es| :: !KeyLess(es[i].version, es[i].name, version, name)
  {
    hide KeyLess;
    first := 0;
    var count: nat := |es|;
    while count > 0
      invariant first + count <= |es|
      invariant forall i | 0 <= i < first :: KeyLess(es[i].version, es[i].name, version, name)
      invariant forall i | first + count <= i < |es| :: !KeyLess(es[i].version, es[i].name, version, name)
    {
      var step := count / 2;
      var it := first + step;
      forall i, j | 0 <= i < j < |es|
        ensures KeyLess(es[j].version, es[j].name, version, name) ==> KeyLess(es[i].version, es[i].name, version, name)
      {
        BelowBoth(es, i, j, version, name);
      }
      if KeyLess(es[it].version, es[it].name, version, name) {
        first := it + 1;
        count := count - (step + 1);
      } else {
        count := step;
      }
    }
  }

  lemma BelowBoth(es: seq<Entry>, i: nat, j: nat, v: string, n: string)
    requires Ascending(EntryLess, es) && i < j < |es|
    ensures KeyLess(es[j].version, es[j].name, v, n) ==> KeyLess(es[i].version, es[i].name, v, n)
  {
    var a, b := es[i], es[j];
    assert !EntryLess(b, a);
    hide KeyLess;
    KeyTrichotomy(a.version, a.name, b.version, b.name);
    if KeyLess(b.version, b.name, v, n) && KeyLess(a.version, a.name, b.version, b.name) {
      KeyTransitive(a.version, a.name, b.version, b.name, v, n);
    }
  }

  /** generatedProtocolTypeJson over a faithful table answers as the source maps do. */
  method GeneratedProtocolTypeJson<S(!new)>(t: Table, version: string, name: string,
                                            ghost types: map<string, map<string, S>>, ghost compact: S -> string)
    returns (r: Option<string>)
    requires Faithful(t, types, compact)
    ensures r == Source(types, compact, version, name)
  {
    var found := LowerBound(t.entries, version, name);
    FoundExactly(t.entries, found, version, name);
    if found == |t.entries| || t.entries[found].version != version || t.entries[found].name != name {
      return None;
    }
    var e := t.entries[found];
    assert e in t.entries && Stands(e, t.literals, types, compact);
    return ReadRaw(t.literals[e.schemaIndex]);
  }

  /** The lower bound of a key is its entry exactly when there is one. */
  lemma FoundExactly(es: seq<Entry>, found: nat, v: string, n: string)
    requires Ascending(EntryLess, es) && found <= |es|
    requires forall i | 0 <= i < found :: KeyLess(es[i].version, es[i].name, v, n)
    requires forall i | found <= i < |es| :: !KeyLess(es[i].version, es[i].name, v, n)
    ensures HasEntry(es, v, n) <==> found < |es| && es[found].version == v && es[found].name == n
  {
    hide KeyLess;
    if HasEntry(es, v, n) {
      var k :| 0 <= k < |es| && es[k].version == v && es[k].name == n;
      KeyTrichotomy(v, n, v, n);
      assert found <= k;
      var f := es[found];
      KeyTrichotomy(f.version, f.name, v, n);
      assert found < k ==> !EntryLess(es[k], f);
    }
  }

  // ---------- generation ----------

  /** The schema texts of the source maps. */
  ghost predicate IsText<S(!new)>(types: map<string, map<string, S>>, compact: S -> string, t: string) {
    exists v, n :: v in types && n in types[v] && compact(types[v][n]) == t
  }

  method CollectTypes<S(!new)>(versions: seq<string>, load: string -> map<string, S>, compact: S -> string)
    returns (versionTypes: map<string, map<string, S>>, unique: set<string>)
    ensures versionTypes == map v | v in versions :: load(v)
    ensures forall t :: t in unique <==> IsText(versionTypes, compact, t)
  {
    versionTypes, unique := map[], {};
    for i := 0 to |versions|
      invariant versionTypes == map v | v in versions[..i] :: load(v)
      invariant forall t :: t in unique <==> IsText(versionTypes, compact, t)
    {
      var version := versions[i];
      assert versions[..i + 1] == versions[..i] + [version];
      var loaded := load(version);
      TextsGrow(versionTypes, version, loaded, compact);
      versionTypes := versionTypes[version := loaded];
      unique := unique + set n | n in loaded :: compact(loaded[n]);
    }
    assert versions[..|versions|] == versions;
  }

  lemma TextsGrow<S(!new)>(
    m: map<string, map<string, S>>, version: string, loaded: map<string, S>, compact: S -> string)
    requires version in m ==> m[version] == loaded
    ensures forall t :: IsText(m[version := loaded], compact, t) <==>
              IsText(m, compact, t) || t in set n | n in loaded :: compact(loaded[n])
  {
    var m' := m[version := loaded];
    forall t: string | IsText(m, compact, t)
      ensures IsText(m', compact, t)
    {
      var v, n :| v in m && n in m[v] && compact(m[v][n]) == t;
      assert v in m' && n in m'[v];
    }
    forall t | t in set n | n in loaded :: compact(loaded[n])
      ensures IsText(m', compact, t)
    {
      var n :| n in loaded && compact(loaded[n]) == t;
      assert version in m' && n in m'[version];
    }
  }

  /** sorted() of a set. */
  method SortedStrings(unique: set<string>) returns (schemas: seq<string>)
    ensures Ascending(Less, schemas) && forall t :: t in schemas <==> t in unique
  {
    var listed, rest := [], unique;
    while rest != {}
      invariant forall t :: t in unique <==> t in listed || t in rest
      decreases |rest|
    {
      var t :| t in rest;
      listed := listed + [t];
      rest := rest - {t};
    }
    StringsOrdered();
    schemas := SortBy(Less, listed);
    assert forall t :: t in schemas <==> t in multiset(schemas);
    assert forall t :: t in listed <==> t in multiset(listed);
  }

  /** The entries of every type of every version, in the order the dictionaries give them. */
  method CollectEntries<S(!new)>(types: map<string, map<string, S>>, compact: S -> string, indexes: map<string, nat>)
    returns (entries: seq<Entry>)
    requires forall v, n | v in types && n in types[v] :: compact(types[v][n]) in indexes
    ensures forall e | e in entries :: Made(e, types, compact, indexes)
    ensures forall v, n | v in types && n in types[v] :: HasEntry(entries, v, n)
  {
    entries := [];
    var vs := types.Keys;
    while vs != {}
      invariant vs <= types.Keys
      invariant forall e | e in entries :: Made(e, types, compact, indexes)
      invariant forall v, n | v in types && v !in vs && n in types[v] :: HasEntry(entries, v, n)
      decreases |vs|
    {
      var version :| version in vs;
      entries := CollectVersion(entries, version, types, compact, indexes);
      vs := vs - {version};
    }
  }

  ghost predicate Made<S(!new)>(e: Entry, types: map<string, map<string, S>>, compact: S -> string,
                                indexes: map<string, nat>)
  {
    && e.version in types && e.name in types[e.version]
    && compact(types[e.version][e.name]) in indexes && e.schemaIndex == indexes[compact(types[e.version][e.name])]
  }

  method CollectVersion<S(!new)>(before: seq<Entry>, version: string, types: map<string, map<string, S>>,
                                 compact: S -> string, indexes: map<string, nat>)
    returns (entries: seq<Entry>)
    requires version in types && forall n | n in types[version] :: compact(types[version][n]) in indexes
    requires forall e | e in before :: Made(e, types, compact, indexes)
    ensures forall e | e in entries :: Made(e, types, compact, indexes)
    ensures before <= entries && forall n | n in types[version] :: HasEntry(entries, version, n)
    ensures forall v, n :: HasEntry(before, v, n) ==> HasEntry(entries, v, n)
  {
    entries := before;
    var ns := types[version].Keys;
    while ns != {}
      invariant ns <= types[version].Keys && before <= entries
      invariant forall e | e in entries :: Made(e, types, compact, indexes)
      invariant forall n | n in types[version] && n !in ns :: HasEntry(entries, version, n)
      decreases |ns|
    {
      var name :| name in ns;
      var e := Entry(version, name, indexes[compact(types[version][name])]);
      EntryAdded(entries, e);
      entries := entries + [e];
      ns := ns - {name};
    }
    forall v, n | HasEntry(before, v, n)
      ensures HasEntry(entries, v, n)
    {
      var i :| 0 <= i < |before| && before[i].version == v && before[i].name == n;
      assert entries[i] == before[i];
    }
  }

  lemma EntryAdded(es: seq<Entry>, e: Entry)
    ensures HasEntry(es + [e], e.version, e.name)
    ensures forall v, n :: HasEntry(es, v, n) ==> HasEntry(es + [e], v, n)
  {
    assert (es + [e])[|es|] == e;
    forall v, n | HasEntry(es, v, n)
      ensures HasEntry(es + [e], v, n)
    {
      var i :| 0 <= i < |es| && es[i].version == v && es[i].name == n;
      assert (es + [e])[i] == es[i];
    }
  }

  lemma SameEntries(a: seq<Entry>, b: seq<Entry>)
    requires multiset(a) == multiset(b)
    ensures forall e :: e in a <==> e in b
    ensures forall v, n :: HasEntry(a, v, n) ==> HasEntry(b, v, n)
  {
    assert forall e :: e in a <==> e in multiset(a);
    assert forall e :: e in b <==> e in multiset(b);
    forall v, n | HasEntry(a, v, n)
      ensures HasEntry(b, v, n)
    {
      var i :| 0 <= i < |a| && a[i].version == v && a[i].name == n;
      assert a[i] in b;
    }
  }

  /** The literals of the schemas in order, None when one of them collides with the delimiter. */
  method EmitLiterals(schemas: seq<string>) returns (r: Option<seq<string>>)
    ensures r.None? <==> exists t | t in schemas :: RawJsonLiteral(t).None?
    ensures r.Some? ==>
              |r.value| == |schemas| && forall i | 0 <= i < |schemas| :: ReadRaw(r.value[i]) == Some(schemas[i])
  {
    hide RawJsonLiteral, ReadRaw;
    var out: seq<string> := [];
    for i := 0 to |schemas|
      invariant |out| == i
      invariant forall j | 0 <= j < i :: ReadRaw(out[j]) == Some(schemas[j]) && RawJsonLiteral(schemas[j]).Some?
    {
      var lit := RawJsonLiteral(schemas[i]);
      if lit.None? {
        return None;
      }
      LiteralReads(schemas[i]);
      out := out + [lit.value];
    }
    return Some(out);
  }

  lemma LiteralReads(value: string)
    requires RawJsonLiteral(value).Some?
    ensures ReadRaw(RawJsonLiteral(value).value) == Some(value)
  {
    RawReadsExactly(value);
  }

  method IndexSchemas(schemas: seq<string>) returns (indexes: map<string, nat>)
    ensures indexes.Keys == set t | t in schemas
    ensures forall t | t in indexes :: indexes[t] < |schemas| && schemas[indexes[t]] == t
  {
    indexes := map[];
    for i := 0 to |schemas|
      invariant indexes.Keys == set t | t in schemas[..i]
      invariant forall t | t in indexes :: indexes[t] < i && schemas[indexes[t]] == t
    {
      assert schemas[..i + 1] == schemas[..i] + [schemas[i]];
      indexes := indexes[schemas[i] := i];
    }
    assert schemas[..|schemas|] == schemas;
  }

  /** generate_cpp_protocol_types: the schema texts interned and sorted, an entry for every type of
      every version, sorted; it raises exactly when a schema text holds the closing delimiter. */
  method GenerateCppProtocolTypes<S(!new)>(versions: seq<string>, load: string -> map<string, S>, compact: S -> string)
    returns (r: Option<Table>, types: map<string, map<string, S>>)
    ensures types == map v | v in versions :: load(v)
    ensures r.Some? ==> Faithful(r.value, types, compact)
    ensures r.None? <==> exists t :: IsText(types, compact, t) && RawJsonLiteral(t).None?
  {
    hide *;
    var unique;
    types, unique := CollectTypes(versions, load, compact);
    var schemas := SortedStrings(unique);
    var indexes := IndexSchemas(schemas);
    TextsIndexed(types, compact, schemas, unique, indexes);
    var entries := CollectEntries(types, compact, indexes);
    EntriesOrdered();
    var ordered := SortBy(EntryLess, entries);
    var literals := EmitLiterals(schemas);
    if literals.None? {
      return None, types;
    }
    TableFaithful(types, compact, schemas, indexes, entries, ordered, literals.value);
    return Some(Table(literals.value, ordered)), types;
  }

  /** Entries made from the indexes of interned schemas, in any order, stand for the source maps. */
  lemma TableFaithful<S(!new)>(types: map<string, map<string, S>>, compact: S -> string, schemas: seq<string>,
                               indexes: map<string, nat>, entries: seq<Entry>, ordered: seq<Entry>,
                               literals: seq<string>)
    requires Ascending(EntryLess, ordered) && multiset(entries) == multiset(ordered)
    requires forall e | e in entries :: Made(e, types, compact, indexes)
    requires forall v, n | v in types && n in types[v] :: HasEntry(entries, v, n)
    requires forall t | t in indexes :: indexes[t] < |schemas| && schemas[indexes[t]] == t
    requires |literals| == |schemas| && forall i | 0 <= i < |schemas| :: ReadRaw(literals[i]) == Some(schemas[i])
    ensures Faithful(Table(literals, ordered), types, compact)
  {
    hide ReadRaw, Ascending, HasEntry;
    SameEntries(entries, ordered);
  }

  /** Exactly the schema texts are interned, and each has an index. */
  lemma TextsIndexed<S(!new)>(types: map<string, map<string, S>>, compact: S -> string, schemas: seq<string>,
                              unique: set<string>, indexes: map<string, nat>)
    requires forall t :: t in unique <==> IsText(types, compact, t)
    requires forall t :: t in schemas <==> t in unique
    requires indexes.Keys == set t | t in schemas
    ensures forall v, n | v in types && n in types[v] :: compact(types[v][n]) in indexes
    ensures (exists t | t in schemas :: RawJsonLiteral(t).None?) <==>
            exists t :: IsText(types, compact, t) && RawJsonLiteral(t).None?
  {
    hide RawJsonLiteral;
    forall v, n | v in types && n in types[v]
      ensures compact(types[v][n]) in indexes
    {
      assert IsText(types, compact, compact(types[v][n]));
    }
  }
}
