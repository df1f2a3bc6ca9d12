/** UTF-8: the byte-at-a-time decoder of section 8.1.1 of the WHATWG Encoding Standard, the
    well-formed byte sequences of section 4 of RFC 3629, and the maximal-subpart rule of section 3.9
    of the Unicode Standard. */
module Utf8 {
  import opened Bits

  type Bytes = seq<byte>

  const REPLACEMENT := 0xFFFD

  /** The decoder's variables: bytes needed, bytes seen, code point, lower and upper boundary. */
  datatype State = State(needed: nat, seen: nat, cp: nat, lower: byte, upper: byte)

  const START := State(0, 0, 0, 0x80, 0xBF)

  /** The code points the decoder emits, U+FFFD standing for an error. A byte that ends a sequence
      early is restored to the input, and the end of the input in mid-sequence is one error. */
  function Decode(st: State, bs: Bytes): seq<nat>
    decreases |bs|, st.needed
  {
    if bs == [] then (if st.needed != 0 then [REPLACEMENT] else [])
    else
      var b, rest := bs[0], bs[1..];
      if st.needed == 0 then
        if b <= 0x7F then [b] + Decode(START, rest)
        else if 0xC2 <= b <= 0xDF then Decode(State(1, 0, b % 0x20, 0x80, 0xBF), rest)
        else if 0xE0 <= b <= 0xEF then
          Decode(State(2, 0, b % 0x10, if b == 0xE0 then 0xA0 else 0x80, if b == 0xED then 0x9F else 0xBF), rest)
        else if 0xF0 <= b <= 0xF4 then
          Decode(State(3, 0, b % 8, if b == 0xF0 then 0x90 else 0x80, if b == 0xF4 then 0x8F else 0xBF), rest)
        else [REPLACEMENT] + Decode(START, rest)
      else if b < st.lower || b > st.upper then [REPLACEMENT] + Decode(START, bs)
      else
        var cp := st.cp * 0x40 + b % 0x40;
        if st.seen + 1 == st.needed then [cp] + Decode(START, rest)
        else Decode(State(st.needed, st.seen + 1, cp, 0x80, 0xBF), rest)
  }

  /** The encoder of section 3 of RFC 3629, six bits to a byte from the end. */
  function Encode(cp: nat): Bytes {
    var q := cp / 0x40;
    var r := q / 0x40;
    var s := r / 0x40;
    if cp <= 0x7F then [cp]
    else if cp <= 0x7FF then [0xC0 + q, 0x80 + cp % 0x40]
    else if cp <= 0xFFFF then [0xE0 + r, 0x80 + q % 0x40, 0x80 + cp % 0x40]
    else if cp <= 0x10FFFF then [0xF0 + s, 0x80 + r % 0x40, 0x80 + q % 0x40, 0x80 + cp % 0x40]
    else []
  }

  function EncodeAll(cps: seq<nat>): Bytes {
    if cps == [] then [] else Encode(cps[0]) + EncodeAll(cps[1..])
  }

  /** Decoding with replacement, written out in UTF-8 again. */
  function Lossy(bs: Bytes): Bytes {
    EncodeAll(Decode(START, bs))
  }

  const FFFD: Bytes := [0xEF, 0xBF, 0xBD]

  // ---------- well-formed sequences ----------

  predicate Tail(b: byte) {
    0x80 <= b <= 0xBF
  }

  /** The second byte a lead byte of a longer sequence allows. */
  predicate Second(lead: byte, b: byte) {
    && Tail(b)
    && (lead == 0xE0 ==> b >= 0xA0) && (lead == 0xED ==> b <= 0x9F)
    && (lead == 0xF0 ==> b >= 0x90) && (lead == 0xF4 ==> b <= 0x8F)
  }

  /** The rule UTF8-char of section 4 of RFC 3629. */
  predicate Utf8Char(s: Bytes) {
    || (|s| == 1 && s[0] <= 0x7F)
    || (|s| == 2 && 0xC2 <= s[0] <= 0xDF && Tail(s[1]))
    || (|s| == 3 && 0xE0 <= s[0] <= 0xEF && Second(s[0], s[1]) && Tail(s[2]))
    || (|s| == 4 && 0xF0 <= s[0] <= 0xF4 && Second(s[0], s[1]) && Tail(s[2]) && Tail(s[3]))
  }

  ghost predicate WellFormed(bs: Bytes)
    decreases |bs|
  {
    bs == [] || exists n | 1 <= n <= |bs| :: Utf8Char(bs[..n]) && WellFormed(bs[n..])
  }

  /** A proper beginning of some well-formed sequence. */
  ghost predicate Extendable(s: Bytes) {
    exists t: Bytes :: t != [] && Utf8Char(s + t)
  }

  /** The first n bytes are what conversion handles as one: a well-formed sequence, or, where none
      begins, the longest beginning of one, or a single byte. */
  ghost predicate IsUnit(bs: Bytes, n: nat) {
    && 0 < n <= |bs|
    && (Utf8Char(bs[..n]) ||
        (&& (forall k | 0 < k <= |bs| :: !Utf8Char(bs[..k]))
         && (n == 1 || Extendable(bs[..n]))
         && forall k | n < k <= |bs| :: !Extendable(bs[..k])))
  }

  // ---------- one unit ----------

  function LeadLength(lead: byte): nat {
    if lead <= 0x7F then 1
    else if 0xC2 <= lead <= 0xDF then 2
    else if 0xE0 <= lead <= 0xEF then 3
    else if 0xF0 <= lead <= 0xF4 then 4
    else 0
  }

  /** How many bytes from the front match the sequence its lead byte announces. */
  function Matched(bs: Bytes): (n: nat)
    requires bs != []
    ensures 1 <= n <= |bs| && n <= 4
  {
    var len := LeadLength(bs[0]);
    if len < 2 || |bs| < 2 || !Second(bs[0], bs[1]) then 1
    else if len < 3 || |bs| < 3 || !Tail(bs[2]) then 2
    else if len < 4 || |bs| < 4 || !Tail(bs[3]) then 3
    else 4
  }

  predicate Complete(bs: Bytes)
    requires bs != []
  {
    Matched(bs) == LeadLength(bs[0])
  }

  lemma ExtendableIff(s: Bytes)
    requires s != []
    ensures Extendable(s) <==> Matched(s) == |s| < LeadLength(s[0])
  {
    if Extendable(s) {
      var t: Bytes :| t != [] && Utf8Char(s + t);
      assert (s + t)[0] == s[0];
      assert |s| > 1 ==> (s + t)[1] == s[1];
      assert |s| > 2 ==> (s + t)[2] == s[2];
    }
    if Matched(s) == |s| < LeadLength(s[0]) {
      var lead, n := s[0], LeadLength(s[0]);
      var second: byte := if lead == 0xE0 then 0xA0 else if lead == 0xF0 then 0x90 else 0x80;
      var t: Bytes :=
        if n == 2 || |s| == 3 then [0x80]
        else if n == 3 then (if |s| == 1 then [second, 0x80] else [0x80])
        else if |s| == 1 then [second, 0x80, 0x80]
        else [0x80, 0x80];
      assert Utf8Char(s + t);
    }
  }

  lemma PrefixMatched(bs: Bytes, k: nat)
    requires 0 < k <= |bs|
    ensures Matched(bs[..k]) == if k < Matched(bs) then k else Matched(bs)
  {
  }

  /** The matched front is the unit, and it is the only one. */
  lemma MatchedIsUnit(bs: Bytes, n: nat)
    requires bs != []
    ensures Utf8Char(bs[..Matched(bs)]) <==> Complete(bs)
    ensures IsUnit(bs, n) <==> n == Matched(bs)
  {
    var m := Matched(bs);
    forall k | 0 < k <= |bs|
      ensures Extendable(bs[..k]) <==> k <= m && k < LeadLength(bs[0])
      ensures Utf8Char(bs[..k]) <==> k == m && Complete(bs)
    {
      PrefixMatched(bs, k);
      ExtendableIff(bs[..k]);
    }
  }

  lemma {:induction false} EncodeAllConcat(a: seq<nat>, b: seq<nat>)
    ensures EncodeAll(a + b) == EncodeAll(a) + EncodeAll(b)
  {
    if a == [] {
      assert a + b == b;
    } else {
      assert (a + b)[1..] == a[1..] + b;
      EncodeAllConcat(a[1..], b);
    }
  }

  lemma LossyError(rest: seq<nat>)
    ensures EncodeAll([REPLACEMENT] + rest) == FFFD + EncodeAll(rest)
  {
    EncodeAllConcat([REPLACEMENT], rest);
    assert EncodeAll([REPLACEMENT]) == FFFD;
  }

  lemma LossyScalar(cp: nat, rest: seq<nat>)
    ensures EncodeAll([cp] + rest) == Encode(cp) + EncodeAll(rest)
  {
    EncodeAllConcat([cp], rest);
  }

  /** The state after the matched front of a longer sequence. */
  function MidState(bs: Bytes, m: nat): State
    requires 1 <= m <= |bs| && m <= Matched(bs) && m < LeadLength(bs[0])
  {
    var lead, n := bs[0], LeadLength(bs[0]);
    var cp0: nat := if n == 2 then lead % 0x20 else if n == 3 then lead % 0x10 else lead % 8;
    if m == 1 then
      State(n - 1, 0, cp0,
            if lead == 0xE0 then 0xA0 else if lead == 0xF0 then 0x90 else 0x80,
            if lead == 0xED then 0x9F else if lead == 0xF4 then 0x8F else 0xBF)
    else
      var cp1: nat := cp0 * 0x40 + bs[1] % 0x40;
      if m == 2 then State(n - 1, 1, cp1, 0x80, 0xBF)
      else State(n - 1, 2, cp1 * 0x40 + bs[2] % 0x40, 0x80, 0xBF)
  }

  lemma DecodeStep(bs: Bytes, m: nat)
    requires 1 < m <= |bs| && m <= Matched(bs) && m < LeadLength(bs[0])
    ensures Decode(MidState(bs, m - 1), bs[m - 1..]) == Decode(MidState(bs, m), bs[m..])
  {
    assert bs[m - 1..][1..] == bs[m..] && bs[m - 1..][0] == bs[m - 1];
  }

  lemma DecodeMid(bs: Bytes, m: nat)
    requires 1 <= m <= |bs| && m <= Matched(bs) && m < LeadLength(bs[0])
    ensures Decode(START, bs) == Decode(MidState(bs, m), bs[m..])
  {
    if m > 1 {
      hide Decode, MidState;
      DecodeMid(bs, m - 1);
      DecodeStep(bs, m);
    }
  }

  lemma Encode2(a: byte, b: byte)
    requires 0xC2 <= a <= 0xDF && Tail(b)
    ensures Encode(a % 0x20 * 0x40 + b % 0x40) == [a, b]
  {
    assert a % 0x20 == a - 0xC0 && b % 0x40 == b - 0x80;
  }

  lemma SixBits(h: nat, d: nat)
    requires d < 0x40
    ensures (h * 0x40 + d) / 0x40 == h && (h * 0x40 + d) % 0x40 == d
  {
  }

  lemma Encode3(a: byte, b: byte, c: byte)
    requires 0xE0 <= a <= 0xEF && Second(a, b) && Tail(c)
    ensures Encode((a % 0x10 * 0x40 + b % 0x40) * 0x40 + c % 0x40) == [a, b, c]
  {
    assert a % 0x10 == a - 0xE0 && b % 0x40 == b - 0x80 && c % 0x40 == c - 0x80;
    var x, y: nat := a - 0xE0, b - 0x80;
    SixBits(x, y);
    SixBits(x * 0x40 + y, c - 0x80);
  }

  lemma FourBytes(x: nat, y: nat, z: nat, w: nat)
    requires y < 0x40 && z < 0x40 && w < 0x40 && 0x10 <= x * 0x40 + y <= 0x10F
    ensures Encode(((x * 0x40 + y) * 0x40 + z) * 0x40 + w) == [0xF0 + x, 0x80 + y, 0x80 + z, 0x80 + w]
  {
    var q2 := x * 0x40 + y;
    var q1 := q2 * 0x40 + z;
    SixBits(x, y);
    SixBits(q2, z);
    SixBits(q1, w);
  }

  lemma Encode4(a: byte, b: byte, c: byte, d: byte)
    requires 0xF0 <= a <= 0xF4 && Second(a, b) && Tail(c) && Tail(d)
    ensures Encode(((a % 8 * 0x40 + b % 0x40) * 0x40 + c % 0x40) * 0x40 + d % 0x40) == [a, b, c, d]
  {
    hide Encode;
    assert a % 8 == a - 0xF0 && b % 0x40 == b - 0x80 && c % 0x40 == c - 0x80 && d % 0x40 == d - 0x80;
    FourBytes(a - 0xF0, b - 0x80, c - 0x80, d - 0x80);
  }

  /** The bits a complete sequence carries encode to the sequence again. */
  lemma EncodeComplete(bs: Bytes)
    requires bs != [] && Complete(bs) && LeadLength(bs[0]) > 1
    ensures var m := Matched(bs);
            Encode(MidState(bs, m - 1).cp * 0x40 + bs[m - 1] % 0x40) == bs[..m]
  {
    hide Encode;
    var m := Matched(bs);
    if m == 2 {
      Encode2(bs[0], bs[1]);
    } else if m == 3 {
      Encode3(bs[0], bs[1], bs[2]);
    } else {
      Encode4(bs[0], bs[1], bs[2], bs[3]);
    }
  }

  /** The decoder handles its input unit by unit: a well-formed sequence stays, any other unit is
      one U+FFFD. */
  lemma LossyUnit(bs: Bytes)
    requires bs != []
    ensures var m := Matched(bs); Lossy(bs) == (if Complete(bs) then bs[..m] else FFFD) + Lossy(bs[m..])
  {
    var m, n := Matched(bs), LeadLength(bs[0]);
    if n == 0 {
      LossyError(Decode(START, bs[1..]));
    } else if n == 1 {
      LossyScalar(bs[0], Decode(START, bs[1..]));
      assert bs[..1] == [bs[0]];
    } else if m == n {
      DecodeMid(bs, m - 1);
      var st := MidState(bs, m - 1);
      var cp := st.cp * 0x40 + bs[m - 1] % 0x40;
      assert bs[m - 1..][1..] == bs[m..];
      assert Decode(st, bs[m - 1..]) == [cp] + Decode(START, bs[m..]);
      EncodeComplete(bs);
      LossyScalar(cp, Decode(START, bs[m..]));
    } else {
      DecodeMid(bs, m);
      LossyError(Decode(START, bs[m..]));
      CutShort(bs, m);
    }
  }

  lemma CutShort(bs: Bytes, m: nat)
    requires bs != [] && m == Matched(bs) < LeadLength(bs[0])
    ensures Decode(MidState(bs, m), bs[m..]) == [REPLACEMENT] + Decode(START, bs[m..])
  {
    if m == |bs| {
      assert bs[m..] == [];
      assert [REPLACEMENT] + [] == [REPLACEMENT];
    } else {
      assert bs[m..][0] == bs[m];
    }
  }

  /** Unit by unit, in the words of the Unicode Standard: whatever split into units one takes, each
      well-formed unit is kept and each other one becomes a single U+FFFD. */
  lemma LossyByUnits(bs: Bytes, n: nat)
    requires IsUnit(bs, n)
    ensures Lossy(bs) == (if Utf8Char(bs[..n]) then bs[..n] else FFFD) + Lossy(bs[n..])
  {
    MatchedIsUnit(bs, n);
    LossyUnit(bs);
  }

  // ---------- what decoding with replacement guarantees ----------

  /** The result is well-formed UTF-8 and at most three times as long as the input. */
  lemma {:induction false} LossyIsWellFormed(bs: Bytes)
    ensures WellFormed(Lossy(bs)) && |Lossy(bs)| <= 3 * |bs|
    decreases |bs|
  {
    if bs != [] {
      var m := Matched(bs);
      LossyUnit(bs);
      MatchedIsUnit(bs, m);
      LossyIsWellFormed(bs[m..]);
      var piece := if Complete(bs) then bs[..m] else FFFD;
      Prepend(piece, Lossy(bs[m..]));
    }
  }

  lemma Prepend(c: Bytes, rest: Bytes)
    requires Utf8Char(c) && WellFormed(rest)
    ensures WellFormed(c + rest)
  {
    assert (c + rest)[..|c|] == c && (c + rest)[|c|..] == rest;
  }

  lemma LossyNothing()
    ensures Lossy([]) == []
  {
  }

  /** Well-formed input comes back unchanged. */
  lemma {:induction false} LossyKeepsWellFormed(bs: Bytes)
    requires WellFormed(bs)
    ensures Lossy(bs) == bs
    decreases |bs|
  {
    hide Lossy, Utf8Char, Extendable;
    if bs == [] {
      LossyNothing();
    } else {
      var n :| 1 <= n <= |bs| && Utf8Char(bs[..n]) && WellFormed(bs[n..]);
      LossyByUnits(bs, n);
      LossyKeepsWellFormed(bs[n..]);
      assert bs == bs[..n] + bs[n..];
    }
  }

  /** Exactly the well-formed inputs are fixed points, and decoding twice changes nothing more. */
  lemma LossyFixedPoints(bs: Bytes)
    ensures Lossy(bs) == bs <==> WellFormed(bs)
    ensures Lossy(Lossy(bs)) == Lossy(bs)
  {
    LossyIsWellFormed(bs);
    LossyKeepsWellFormed(Lossy(bs));
    if WellFormed(bs) {
      LossyKeepsWellFormed(bs);
    }
  }

  // ---------- splitting at ASCII bytes ----------

  /** An ASCII byte ends whatever sequence it interrupts: decoding is a homomorphism around it. */
  lemma {:induction false} DecodeAround(st: State, a: Bytes, c: byte, b: Bytes)
    requires c <= 0x7F && st.lower >= 0x80
    ensures Decode(st, a + [c] + b) == Decode(st, a) + [c] + Decode(START, b)
    decreases |a|, st.needed, 1
  {
    if a == [] {
      assert (a + [c] + b)[0] == c && (a + [c] + b)[1..] == b;
    } else if st.needed == 0 {
      AroundLead(st, a, c, b);
    } else {
      AroundTail(st, a, c, b);
    }
  }

  lemma {:induction false} AroundLead(st: State, a: Bytes, c: byte, b: Bytes)
    requires c <= 0x7F && st.lower >= 0x80 && a != [] && st.needed == 0
    ensures Decode(st, a + [c] + b) == Decode(st, a) + [c] + Decode(START, b)
    decreases |a|, st.needed, 0
  {
    var x, rest, lead := a + [c] + b, a[1..], a[0];
    assert x[0] == lead && x[1..] == rest + [c] + b;
    DecodeAround(START, rest, c, b);
    if LeadLength(lead) > 1 {
      DecodeAround(MidState(a[..1], 1), rest, c, b);
    }
  }

  lemma {:induction false} AroundTail(st: State, a: Bytes, c: byte, b: Bytes)
    requires c <= 0x7F && st.lower >= 0x80 && a != [] && st.needed > 0
    ensures Decode(st, a + [c] + b) == Decode(st, a) + [c] + Decode(START, b)
    decreases |a|, st.needed, 0
  {
    var x, rest := a + [c] + b, a[1..];
    assert x[0] == a[0] && x[1..] == rest + [c] + b;
    if a[0] < st.lower || a[0] > st.upper {
      DecodeAround(START, a, c, b);
    } else {
      DecodeAround(START, rest, c, b);
      DecodeAround(State(st.needed, st.seen + 1, st.cp * 0x40 + a[0] % 0x40, 0x80, 0xBF), rest, c, b);
    }
  }

  lemma LossyAround(a: Bytes, c: byte, b: Bytes)
    requires c <= 0x7F
    ensures Lossy(a + [c] + b) == Lossy(a) + [c] + Lossy(b)
  {
    DecodeAround(START, a, c, b);
    EncodeAllConcat(Decode(START, a) + [c], Decode(START, b));
    EncodeAllConcat(Decode(START, a), [c]);
  }

  /** Decoding introduces no ASCII byte of its own. */
  lemma {:induction false} LossyAddsNoAscii(bs: Bytes, c: byte)
    requires c <= 0x7F && c !in bs
    ensures c !in Lossy(bs)
    decreases |bs|
  {
    if bs != [] {
      LossyUnit(bs);
      LossyAddsNoAscii(bs[Matched(bs)..], c);
    }
  }
}
