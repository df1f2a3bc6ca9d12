/** Game versions as tools/login.cpp reads and compares them. */
module Version {
  import opened Wrappers
  import opened Text
  import opened JsonEdit
  import opened Splitting

  const INT_MAX: int := 0x7fff_ffff

  function DigitsValue(ds: string): nat
    requires forall i | 0 <= i < |ds| :: IsDigit(ds[i])
  {
    if ds == "" then 0
    else
      assert IsDigit(ds[|ds| - 1]);
      DigitsValue(ds[..|ds| - 1]) * 10 + (ds[|ds| - 1] as int - '0' as int)
  }

  /** One version part: 0 when it has no digit, None where std::stoi throws out_of_range. */
  function Part(ds: string): Option<int>
    requires forall i | 0 <= i < |ds| :: IsDigit(ds[i])
  {
    if DigitsValue(ds) <= INT_MAX then Some(DigitsValue(ds)) else None
  }

  /** The parts of a version text, `cur` holding the digits of the part being read. */
  function Parts(version: string, cur: string): (r: Option<seq<int>>)
    requires forall i | 0 <= i < |cur| :: IsDigit(cur[i])
    ensures r.Some? ==> |r.value| >= 1 && forall i | 0 <= i < |r.value| :: 0 <= r.value[i] <= INT_MAX
    decreases |version|
  {
    if version == "" then
      var last := Part(cur);
      if last.None? then None else Some([last.value])
    else if version[0] == '.' then
      var part, rest := Part(cur), Parts(version[1..], "");
      if part.None? || rest.None? then None else Some([part.value] + rest.value)
    else Parts(version[1..], if IsDigit(version[0]) then cur + [version[0]] else cur)
  }

  /** What parseVersionParts returns: at least three parts; None when it throws. */
  function VersionParts(version: string): (r: Option<seq<int>>)
    ensures r.Some? ==> IntParts(r.value)
  {
    var parts := Parts(version, "");
    if parts.None? then None
    else if |parts.value| == 1 then Some(parts.value + [0, 0])
    else if |parts.value| == 2 then Some(parts.value + [0])
    else parts
  }

  /** At least three parts that are ints and not negative. */
  predicate IntParts(v: seq<int>) {
    |v| >= 3 && forall i | 0 <= i < |v| :: 0 <= v[i] <= INT_MAX
  }

  predicate AtLeast(v: seq<int>, a: int, b: int, c: int)
    requires |v| >= 3
  {
    if v[0] != a then v[0] > a
    else if v[1] != b then v[1] > b
    else v[2] >= c
  }

  /** Three parts as one number, its digits to the base 2^31. */
  function Packed(x: int, y: int, z: int): int {
    (x * 0x8000_0000 + y) * 0x8000_0000 + z
  }

  function Rank(v: seq<int>): int
    requires |v| >= 3
  {
    Packed(v[0], v[1], v[2])
  }

  /** Versions are compared as those numbers are. */
  lemma AtLeastExactly(v: seq<int>, a: int, b: int, c: int)
    requires IntParts(v) && 0 <= a <= INT_MAX && 0 <= b <= INT_MAX && 0 <= c <= INT_MAX
    ensures AtLeast(v, a, b, c) <==> Rank(v) >= Packed(a, b, c)
  {
  }

  method ParseVersionParts(version: string) returns (out: Option<seq<int>>)
    ensures out == VersionParts(version)
  {
    var parts: seq<int>, cur := [], "";
    assert version[0..] == version;
    PrependNone(Parts(version, ""));
    for i := 0 to |version|
      invariant forall k | 0 <= k < |cur| :: IsDigit(cur[k])
      invariant Parts(version, "") == Prepend(parts, Parts(version[i..], cur))
    {
      var c := version[i];
      assert version[i..][1..] == version[i + 1..];
      if c == '.' {
        var part := Part(cur);
        if part.None? {
          return None;
        }
        PrependOne(parts, part.value, Parts(version[i + 1..], ""));
        parts := parts + [part.value];
        cur := "";
      } else if IsDigit(c) {
        cur := cur + [c];
      }
    }
    assert version[|version|..] == "";
    var last := Part(cur);
    if last.None? {
      return None;
    }
    parts := parts + [last.value];
    while |parts| < 3
      invariant 1 <= |parts|
      invariant Parts(version, "").Some?
      invariant var p := Parts(version, "").value;
                parts == p || (|parts| <= 3 && parts == p + [0]) || (|parts| == 3 && parts == p + [0, 0])
    {
      parts := parts + [0];
    }
    return Some(parts);
  }

  ghost function Prepend(a: seq<int>, r: Option<seq<int>>): Option<seq<int>> {
    if r.None? then None else Some(a + r.value)
  }

  lemma PrependNone(r: Option<seq<int>>)
    ensures Prepend([], r) == r
  {
    if r.Some? {
      assert [] + r.value == r.value;
    }
  }

  lemma PrependOne(a: seq<int>, x: int, r: Option<seq<int>>)
    ensures Prepend(a, Prepend([x], r)) == Prepend(a + [x], r)
  {
    if r.Some? {
      assert a + ([x] + r.value) == a + [x] + r.value;
    }
  }

  // ---------- a dotted version reads back as its parts ----------

  lemma {:induction false} DigitsRead(n: nat)
    ensures DigitsValue(DecimalDigits(n)) == n
  {
    var s := DecimalDigits(n);
    var d := ('0' as int + n % 10) as char;
    if n >= 10 {
      DigitsRead(n / 10);
      assert s == DecimalDigits(n / 10) + [d];
      assert s[..|s| - 1] == DecimalDigits(n / 10);
    } else {
      assert s == [d] && s[..0] == "";
    }
  }

  lemma {:induction false} DigitsGathered(ds: string, rest: string, cur: string)
    requires forall i | 0 <= i < |ds| :: IsDigit(ds[i])
    requires forall i | 0 <= i < |cur| :: IsDigit(cur[i])
    ensures Parts(ds + rest, cur) == Parts(rest, cur + ds)
    decreases |ds|
  {
    if ds == "" {
      assert ds + rest == rest && cur + ds == cur;
    } else {
      assert (ds + rest)[1..] == ds[1..] + rest && (ds + rest)[0] == ds[0];
      DigitsGathered(ds[1..], rest, cur + [ds[0]]);
      assert cur + [ds[0]] + ds[1..] == cur + ds;
    }
  }

  lemma AtDot(ds: string, rest: string, n: int)
    requires (forall i | 0 <= i < |ds| :: IsDigit(ds[i])) && Part(ds) == Some(n)
    ensures Parts("." + rest, ds) == Prepend([n], Parts(rest, ""))
    ensures Parts("", ds) == Some([n])
  {
    hide Part;
    assert ("." + rest)[1..] == rest && ("." + rest)[0] == '.';
  }

  lemma DottedPart(n: nat, rest: string)
    requires n <= INT_MAX
    ensures Parts(DecimalDigits(n) + ("." + rest), "") == Prepend([n], Parts(rest, ""))
    ensures Parts(DecimalDigits(n), "") == Some([n])
  {
    hide DecimalDigits, DigitsValue, Part, Parts, IsDigit;
    PartRead(n);
    var ds := DecimalDigits(n);
    DigitsGathered(ds, "." + rest, "");
    DigitsGathered(ds, "", "");
    AtDot(ds, rest, n);
    assert "" + ds == ds && ds + "" == ds;
  }

  lemma PartRead(n: nat)
    requires n <= INT_MAX
    ensures var ds := DecimalDigits(n); (forall i | 0 <= i < |ds| :: IsDigit(ds[i])) && Part(ds) == Some(n)
  {
    hide DecimalDigits, DigitsValue;
    DigitsOnly(DecimalDigits(n));
    DigitsRead(n);
  }

  lemma DigitsOnly(ds: string)
    requires forall c | c in ds :: IsDigit(c)
    ensures forall i | 0 <= i < |ds| :: IsDigit(ds[i])
  {
  }

  function Dotted(x: nat, y: nat, z: nat): string {
    DecimalDigits(x) + ("." + (DecimalDigits(y) + ("." + DecimalDigits(z))))
  }

  /** A version written as three dotted numbers is read as those numbers. */
  lemma DottedVersion(x: nat, y: nat, z: nat)
    requires x <= INT_MAX && y <= INT_MAX && z <= INT_MAX
    ensures VersionParts(Dotted(x, y, z)) == Some([x, y, z])
  {
    hide DecimalDigits, Parts, Part;
    assert [x] + ([y] + [z]) == [x, y, z];
    DottedPart(z, "");
    DottedPart(y, DecimalDigits(z));
    DottedPart(x, DecimalDigits(y) + ("." + DecimalDigits(z)));
  }

  // ---------- any version, field by field ----------

  function DigitsIn(s: string): (r: string)
    ensures forall i | 0 <= i < |r| :: IsDigit(r[i])
  {
    if s == "" then ""
    else DigitsIn(s[..|s| - 1]) + if IsDigit(s[|s| - 1]) then [s[|s| - 1]] else ""
  }

  /** The number a field stands for: its digits, whatever else it holds. */
  function FieldValue(s: string): nat {
    DigitsValue(DigitsIn(s))
  }

  ghost predicate TooBig(fields: seq<string>) {
    exists i | 0 <= i < |fields| :: FieldValue(fields[i]) > INT_MAX
  }

  ghost predicate ByFields(r: Option<seq<int>>, fields: seq<string>) {
    if TooBig(fields) then r.None?
    else r.Some? && |r.value| == |fields| && forall i | 0 <= i < |fields| :: r.value[i] == FieldValue(fields[i])
  }

  lemma {:induction false} PartsByFields(version: string, current: string)
    ensures ByFields(Parts(version, DigitsIn(current)), SplitFrom(version, '.', current))
    decreases |version|
  {
    hide DigitsIn, DigitsValue, IsDigit, TooBig;
    if version != "" {
      var c := version[0];
      if c == '.' {
        NoDigits();
        PartsByFields(version[1..], "");
        OneField(current, SplitFrom(version[1..], '.', ""), Parts(version[1..], ""));
      } else {
        OneCharacter(current, c);
        PartsByFields(version[1..], current + [c]);
      }
    } else {
      LastField(current);
    }
  }

  lemma LastField(current: string)
    ensures ByFields(if Part(DigitsIn(current)).None? then None else Some([Part(DigitsIn(current)).value]), [current])
  {
    hide DigitsIn, DigitsValue;
    assert [current][0] == current;
  }

  lemma NoDigits()
    ensures DigitsIn("") == ""
  {
  }

  lemma OneCharacter(s: string, c: char)
    ensures DigitsIn(s + [c]) == if IsDigit(c) then DigitsIn(s) + [c] else DigitsIn(s)
  {
    assert (s + [c])[..|s|] == s;
  }

  lemma OneField(field: string, fields: seq<string>, r: Option<seq<int>>)
    requires ByFields(r, fields)
    ensures var part := Part(DigitsIn(field));
            ByFields(if part.None? || r.None? then None else Some([part.value] + r.value), [field] + fields)
  {
    hide DigitsIn, DigitsValue, TooBig;
    BigField(field, fields);
    var all := [field] + fields;
    assert all[0] == field && forall i | 0 <= i < |fields| :: all[i + 1] == fields[i];
  }

  lemma BigField(field: string, fields: seq<string>)
    ensures TooBig([field] + fields) <==> FieldValue(field) > INT_MAX || TooBig(fields)
  {
    hide FieldValue;
    var all := [field] + fields;
    assert all[0] == field && forall i | 0 <= i < |fields| :: all[i + 1] == fields[i];
    if TooBig(all) {
      var i :| 0 <= i < |all| && FieldValue(all[i]) > INT_MAX;
      assert i > 0 ==> FieldValue(fields[i - 1]) > INT_MAX;
    }
    if TooBig(fields) {
      var i :| 0 <= i < |fields| && FieldValue(fields[i]) > INT_MAX;
      assert FieldValue(all[i + 1]) > INT_MAX;
    }
  }

  /** A version is read field by field between its dots: a field is the number its digits make, other
      characters being skipped, a field without digits is 0, and missing fields up to the third are 0.
      Reading throws exactly when some field is more than an int holds. */
  lemma VersionByFields(version: string)
    ensures var fields, r := Split(version, '.'), VersionParts(version);
            && (r.None? <==> TooBig(fields))
            && (r.Some? ==>
                  && |r.value| == (if |fields| < 3 then 3 else |fields|)
                  && forall i | 0 <= i < |r.value| ::
                       r.value[i] == if i < |fields| then FieldValue(fields[i]) else 0)
  {
    hide FieldValue, SplitFrom, Parts, TooBig;
    PartsByFields(version, "");
    NoDigits();
  }
}
