/** Unsigned LEB128 (section 7.6 of DWARF 5) truncated to a word, as BinaryStream, BedrockFramer and
    LoginPacketCodec write and read it with shifts and ors. */
module Leb128 {
  import opened Wrappers
  import opened Bits
  import opened Words

  /** The encoding the writers emit: seven bits a byte, low first, 0x80 on all but the last. */
  function Leb(v: nat): (r: seq<byte>)
    ensures r != []
  {
    if v < 0x80 then [v] else [v % 0x80 + 0x80] + Leb(v / 0x80)
  }

  /** The sum of (byte mod 128) * 128^i. */
  function Value(bs: seq<byte>): (r: nat) {
    if bs == [] then 0 else bs[0] % 0x80 + 0x80 * Value(bs[1..])
  }

  /** An encoding of n bytes at `off`: only its last byte is below 0x80. */
  ghost predicate VarintAt(data: seq<byte>, off: nat, n: nat) {
    && 0 < n && off + n <= |data|
    && data[off + n - 1] < 0x80
    && forall i | off <= i < off + n - 1 :: data[i] >= 0x80
  }

  ghost predicate IsVarint(bs: seq<byte>) {
    VarintAt(bs, 0, |bs|)
  }

  /** The length of the encoding at `off`, None when no byte below 0x80 occurs in the window. */
  function VarLength(data: seq<byte>, off: nat, window: nat): (r: Option<nat>)
    ensures r.Some? ==> r.value <= window && VarintAt(data, off, r.value)
    ensures r.None? ==> forall i | off <= i < off + window && i < |data| :: data[i] >= 0x80
    decreases window
  {
    if window == 0 || off >= |data| then None
    else if data[off] < 0x80 then Some(1)
    else
      var n := VarLength(data, off + 1, window - 1);
      if n.None? then None else Some(n.value + 1)
  }

  /** The outcome of a read and where it leaves the cursor. */
  datatype VarRead =
    | Got(value: nat, next: nat)
    | OutOfRange(next: nat)
    | TooBig(next: nat)

  function ReadVar(data: seq<byte>, off: nat, window: nat, bits: nat): (r: VarRead)
    ensures r.Got? ==> off < r.next <= |data|
  {
    var n := VarLength(data, off, window);
    if n.Some? then Got(Value(data[off..off + n.value]) % Pow2(bits), off + n.value)
    else if off + window <= |data| then TooBig(off + window)
    else OutOfRange(if off > |data| then off else |data|)
  }

  // ---------- which byte is which ----------

  /** The i-th byte's low seven bits count 128 to the i, whatever its top bit is. */
  lemma {:induction false} GroupAt(bs: seq<byte>, i: nat)
    requires i < |bs|
    ensures Value(bs) / Pow2(7 * i) % 0x80 == bs[i] % 0x80
  {
    hide Value, Pow2;
    ValueParts(bs);
    if i > 0 {
      GroupAt(bs[1..], i - 1);
      assert bs[1..][i - 1] == bs[i];
      GroupStep(Value(bs), i);
    } else {
      NoPower();
    }
  }

  lemma GroupStep(v: nat, i: nat)
    requires i > 0
    ensures v / Pow2(7 * i) == v / 0x80 / Pow2(7 * (i - 1))
  {
    hide Pow2;
    Pow2Seven(i - 1);
    DivideTwice(v, 0x80, Pow2(7 * (i - 1)));
  }

  /** When a read fails, and where it leaves the cursor: at the end of the data if that comes first, and
      else behind a window of bytes that all go on. */
  lemma ReadFails(data: seq<byte>, off: nat, window: nat, bits: nat)
    ensures var r := ReadVar(data, off, window, bits);
            && (r.TooBig? <==>
                  off + window <= |data| && forall i | off <= i < off + window :: data[i] >= 0x80)
            && (r.OutOfRange? <==>
                  |data| < off + window && forall i | off <= i < |data| :: data[i] >= 0x80)
            && (r.TooBig? ==> r.next == off + window)
            && (r.OutOfRange? ==> r.next == if off > |data| then off else |data|)
  {
    var n := VarLength(data, off, window);
    if n.Some? {
      assert data[off + n.value - 1] < 0x80;
    }
  }

  // ---------- writing and reading are inverse ----------

  lemma VarintTail(bs: seq<byte>)
    requires |bs| > 1
    ensures IsVarint(bs) <==> bs[0] >= 0x80 && IsVarint(bs[1..])
  {
    var t := bs[1..];
    if bs[0] >= 0x80 && IsVarint(t) {
      forall i | 0 <= i < |bs| - 1
        ensures bs[i] >= 0x80
      {
        assert i > 0 ==> bs[i] == t[i - 1];
      }
    }
  }

  lemma {:induction false} LebIsVarint(v: nat)
    ensures IsVarint(Leb(v)) && Value(Leb(v)) == v
  {
    if v >= 0x80 {
      LebIsVarint(v / 0x80);
      assert Leb(v)[1..] == Leb(v / 0x80);
      VarintTail(Leb(v));
    }
  }

  lemma VarLengthIs(data: seq<byte>, off: nat, window: nat, n: nat)
    requires VarintAt(data, off, n) && n <= window
    ensures VarLength(data, off, window) == Some(n)
  {
    var r := VarLength(data, off, window);
    assert data[off + n - 1] < 0x80;
    assert data[off + r.value - 1] < 0x80;
  }

  lemma VarintMoved(data: seq<byte>, off: nat, h: seq<byte>)
    requires off + |h| <= |data| && data[off..off + |h|] == h && IsVarint(h)
    ensures VarintAt(data, off, |h|)
  {
    assert forall i | off <= i < off + |h| :: data[i] == h[i - off];
  }

  lemma ReadsAt(data: seq<byte>, off: nat, n: nat, window: nat, bits: nat)
    requires VarintAt(data, off, n) && n <= window
    ensures ReadVar(data, off, window, bits) == Got(Value(data[off..off + n]) % Pow2(bits), off + n)
  {
    hide Value, Pow2;
    VarLengthIs(data, off, window, n);
  }

  lemma Pow2Seven(n: nat)
    ensures Pow2(7 * (n + 1)) == 0x80 * Pow2(7 * n)
  {
    Pow2Add(7 * n, 7);
    Powers();
  }

  lemma {:induction false} LebLength(v: nat, n: nat)
    requires n > 0 && v < Pow2(7 * n)
    ensures |Leb(v)| <= n
  {
    Powers();
    Pow2Seven(n - 1);
    if v >= 0x80 && n > 1 {
      LebLength(v / 0x80, n - 1);
    }
  }

  /** A written word reads back wherever its bytes stand. */
  lemma LebReads(data: seq<byte>, off: nat, v: nat, window: nat, bits: nat)
    requires window > 0 && v < Pow2(bits) && bits <= 7 * window
    requires off + |Leb(v)| <= |data| && data[off..off + |Leb(v)|] == Leb(v)
    ensures ReadVar(data, off, window, bits) == Got(v, off + |Leb(v)|)
  {
    hide Leb, Value, Pow2, VarintAt, ReadVar;
    Pow2Mono(bits, 7 * window);
    LebLength(v, window);
    LebIsVarint(v);
    VarintMoved(data, off, Leb(v));
    ReadsAt(data, off, |Leb(v)|, window, bits);
    SmallMod(v, Pow2(bits));
  }

  /** Every written word reads back, before any tail, and the cursor stops after it. */
  lemma RoundTrip(pre: seq<byte>, v: nat, post: seq<byte>, window: nat, bits: nat)
    requires window > 0 && v < Pow2(bits) && bits <= 7 * window
    ensures ReadVar(pre + Leb(v) + post, |pre|, window, bits) == Got(v, |pre| + |Leb(v)|)
  {
    hide Leb, Pow2, ReadVar;
    LebReads(pre + Leb(v) + post, |pre|, v, window, bits);
  }

  lemma SmallMod(v: nat, m: nat)
    requires v < m
    ensures v % m == v
  {
  }

  /** A read fails exactly when no byte below 0x80 occurs in its window, it never consumes more than
      the window, and a success depends only on the bytes it consumes. */
  lemma ReadExactly(data: seq<byte>, off: nat, window: nat, bits: nat)
    ensures var r := ReadVar(data, off, window, bits);
            && (r.Got? <==> exists i | off <= i < off + window && i < |data| :: data[i] < 0x80)
            && (r.TooBig? ==> off + window <= |data|)
            && (r.OutOfRange? ==> |data| < off + window)
            && off <= r.next <= off + window
            && (r.next <= |data| || r.next == off)
            && (r.Got? ==> off < r.next <= |data| && r.value < Pow2(bits) && IsVarint(data[off..r.next])
                           && r.value == Value(data[off..r.next]) % Pow2(bits))
  {
    var n := VarLength(data, off, window);
    if n.Some? {
      var e := data[off..off + n.value];
      assert data[off + n.value - 1] < 0x80;
      assert forall i | 0 <= i < n.value :: e[i] == data[off + i];
    }
  }

  // ---------- the shortest encoding ----------

  lemma {:induction false} LebMono(a: nat, b: nat)
    requires a <= b
    ensures |Leb(a)| <= |Leb(b)|
  {
    if b >= 0x80 && a >= 0x80 {
      LebMono(a / 0x80, b / 0x80);
    }
  }

  /** No encoding of a value is shorter than the writer's, and a different one is longer. */
  lemma {:induction false} LebIsShortest(bs: seq<byte>)
    requires IsVarint(bs)
    ensures |Leb(Value(bs))| <= |bs|
    ensures |Leb(Value(bs))| == |bs| <==> Leb(Value(bs)) == bs
  {
    if |bs| == 1 {
      assert bs[1..] == [];
    } else {
      VarintTail(bs);
      LebIsShortest(bs[1..]);
      var w := Value(bs[1..]);
      assert Value(bs) == bs[0] % 0x80 + 0x80 * w && bs[0] % 0x80 == bs[0] - 0x80;
      if w > 0 {
        assert Value(bs) / 0x80 == w && Value(bs) % 0x80 == bs[0] - 0x80;
        assert Leb(Value(bs)) == [bs[0]] + Leb(w);
        assert bs == [bs[0]] + bs[1..];
      }
    }
  }

  /** The encoding a writer emits for what was read is never longer than what was read; it is the
      same bytes exactly when the value fits the word and the last byte carries bits. */
  lemma Canonical(bs: seq<byte>, bits: nat)
    requires IsVarint(bs)
    ensures var v := Value(bs) % Pow2(bits);
            && |Leb(v)| <= |bs|
            && (Leb(v) == bs <==> Value(bs) < Pow2(bits) && (|bs| == 1 || bs[|bs| - 1] != 0))
  {
    hide Leb, Value, Pow2, VarintAt;
    var w := Value(bs);
    var v := w % Pow2(bits);
    SmallerMod(w, Pow2(bits));
    LebMono(v, w);
    LebIsShortest(bs);
    LebIsVarint(v);
    LastCarries(v);
    if w < Pow2(bits) {
      SmallMod(w, Pow2(bits));
      if |bs| == 1 || bs[|bs| - 1] != 0 {
        CarriesIsLeb(bs);
      }
    }
  }

  lemma SmallerMod(w: nat, m: nat)
    requires m > 0
    ensures w % m <= w && w % m < m
  {
    if w < m {
      SmallMod(w, m);
    }
  }

  lemma {:induction false} LastCarries(v: nat)
    ensures |Leb(v)| == 1 || Leb(v)[|Leb(v)| - 1] != 0
    ensures v > 0 ==> Leb(v)[|Leb(v)| - 1] != 0
  {
    if v >= 0x80 {
      LastCarries(v / 0x80);
    }
  }

  lemma {:induction false} CarriesIsLeb(bs: seq<byte>)
    requires IsVarint(bs) && (|bs| == 1 || bs[|bs| - 1] != 0)
    ensures Leb(Value(bs)) == bs
    ensures bs[|bs| - 1] != 0 ==> Value(bs) > 0
  {
    if |bs| == 1 {
      assert bs[1..] == [];
    } else {
      VarintTail(bs);
      CarriesIsLeb(bs[1..]);
      ValueParts(bs);
      LebStep(bs, Value(bs[1..]));
    }
  }

  lemma ValueParts(bs: seq<byte>)
    requires bs != []
    ensures Value(bs) / 0x80 == Value(bs[1..]) && Value(bs) % 0x80 == bs[0] % 0x80
  {
  }

  lemma LebStep(bs: seq<byte>, w: nat)
    requires |bs| > 1 && bs[0] >= 0x80 && Value(bs) / 0x80 == w && Value(bs) % 0x80 == bs[0] % 0x80
    requires Leb(w) == bs[1..]
    ensures w > 0 ==> Leb(Value(bs)) == bs
  {
    hide Value;
    assert bs == [bs[0]] + bs[1..];
  }

  // ---------- the loops ----------

  lemma {:induction false} ValueBound(bs: seq<byte>)
    ensures Value(bs) < Pow2(7 * |bs|)
  {
    if bs != [] {
      ValueBound(bs[1..]);
      Pow2Seven(|bs| - 1);
    }
  }

  lemma {:induction false} ValueAppend(a: seq<byte>, b: byte)
    ensures Value(a + [b]) == Value(a) + b % 0x80 * Pow2(7 * |a|)
  {
    if a == [] {
      assert a + [b] == [b];
      assert Value([b]) == b % 0x80;
    } else {
      ValueAppend(a[1..], b);
      assert (a + [b])[1..] == a[1..] + [b];
      Pow2Seven(|a| - 1);
      assert b % 0x80 * Pow2(7 * |a|) == 0x80 * (b % 0x80 * Pow2(7 * (|a| - 1)));
    }
  }

  /** byte & 0x7F and byte & 0x80 */
  lemma SevenBits(b: byte)
    ensures And(b, 0x7F) == b % 0x80
    ensures And(b, 0x80) == 0 <==> b < 0x80
  {
    hide And, Pow2, Low;
    Powers();
    AndMask(b, 7);
    LowIsMod(b, 7);
    AndHigh(b, 7, 8);
  }

  /** result |= (byte & 0x7F) << shift, in a word whose top bits may be shifted out */
  lemma OrSeven(a: seq<byte>, b: byte, bits: nat)
    requires 7 * |a| <= bits
    ensures Or(Value(a), Shl(b % 0x80, 7 * |a|, bits)) == Value(a + [b]) % Pow2(bits)
  {
    hide Value, Pow2, Or, Low;
    var k: nat, c: nat := 7 * |a|, b % 0x80;
    var p, m := Pow2(k), Pow2(bits - k);
    ValueBound(a);
    ValueAppend(a, b);
    Pow2Add(k, bits - k);
    LowIsMod(c * p, bits);
    OrDisjoint(Value(a), c % m, k);
    LowPart(0, c, p, m);
    LowPart(Value(a), c, p, m);
  }

  /** Of v + c * p, the part below p * m. */
  lemma LowPart(v: nat, c: nat, p: nat, m: nat)
    requires v < p && m > 0
    ensures p * m > 0 && (v + c * p) % (p * m) == v + c % m * p
  {
    var q, r := c / m, c % m;
    MulStep(p, r, m);
    MulStep(p, 0, m);
    Regroup(c, p, m, q, r);
    assert r * p >= 0;
    ModIs(v + c * p, p * m, q, v + r * p);
  }

  lemma Regroup(c: int, p: int, m: int, q: int, r: int)
    requires c == m * q + r
    ensures c * p == (p * m) * q + r * p
  {
  }

  /** One turn of the read loop: or-ing in the next seven bits. */
  lemma ReadStep(data: seq<byte>, off: nat, pos: nat, bits: nat)
    requires off <= pos < |data| && 7 * (pos - off) <= bits
    ensures Or(Value(data[off..pos]), Shl(And(data[pos], 0x7F), 7 * (pos - off), bits))
            == Value(data[off..pos + 1]) % Pow2(bits)
    ensures 7 * (pos + 1 - off) <= bits ==> Value(data[off..pos + 1]) % Pow2(bits) == Value(data[off..pos + 1])
    ensures And(data[pos], 0x80) == 0 <==> data[pos] < 0x80
  {
    hide And, Or, Shl, Value, Pow2;
    var seen, b := data[off..pos], data[pos];
    SevenBits(b);
    OrSeven(seen, b, bits);
    assert data[off..pos + 1] == seen + [b];
    ValueBound(seen + [b]);
    if 7 * (pos + 1 - off) <= bits {
      Pow2Mono(7 * (pos + 1 - off), bits);
      SmallMod(Value(seen + [b]), Pow2(bits));
    }
  }

  /** All bytes from `off` up to `pos` carry the continuation bit. */
  ghost predicate Continues(data: seq<byte>, off: nat, pos: nat) {
    off <= pos && (pos <= |data| || pos == off) && forall j | off <= j < pos :: data[j] >= 0x80
  }

  lemma StopsAt(data: seq<byte>, off: nat, pos: nat, window: nat, bits: nat)
    requires Continues(data, off, pos) && pos < |data| && data[pos] < 0x80 && pos < off + window
    ensures ReadVar(data, off, window, bits) == Got(Value(data[off..pos + 1]) % Pow2(bits), pos + 1)
  {
    hide Value, Pow2;
    VarLengthIs(data, off, window, pos + 1 - off);
  }

  lemma RunsOut(data: seq<byte>, off: nat, pos: nat, window: nat, bits: nat)
    requires Continues(data, off, pos) && pos <= off + window
    requires if pos == off + window then pos <= |data| else |data| <= pos
    ensures ReadVar(data, off, window, bits) == if pos == off + window then TooBig(pos) else OutOfRange(pos)
  {
    hide VarLength;
    NoneWithin(data, off, window);
  }

  /** readVarUInt (window 5, 32 bits) and readVarULong (window 10, 64 bits). */
  method ReadVarUInt(data: seq<byte>, off: nat, window: nat, bits: nat) returns (r: VarRead)
    requires 0 < window && 7 * window < bits + 7
    ensures r == ReadVar(data, off, window, bits)
  {
    hide And, Or, Shl, Value, Pow2, VarLength, ReadVar;
    var result: nat, pos: nat := 0, off;
    ZeroValue();
    for i := 0 to window
      invariant pos == off + i && Continues(data, off, pos)
      invariant i == 0 ==> result == 0
      invariant 0 < i < window ==> result == Value(data[off..pos])
      invariant i == window ==> pos <= |data|
    {
      if pos >= |data| {
        RunsOut(data, off, pos, window, bits);
        return OutOfRange(pos);
      }
      assert i == 0 ==> data[off..pos] == [];
      var byte := data[pos];
      ReadStep(data, off, pos, bits);
      result := Or(result, Shl(And(byte, 0x7F), 7 * i, bits));
      pos := pos + 1;
      if And(byte, 0x80) == 0 {
        StopsAt(data, off, pos - 1, window, bits);
        return Got(result, pos);
      }
    }
    RunsOut(data, off, pos, window, bits);
    return TooBig(pos);
  }

  lemma ZeroValue()
    ensures Value([]) == 0
  {
  }

  lemma {:induction false} NoneWithin(data: seq<byte>, off: nat, window: nat)
    requires forall j | off <= j < off + window && j < |data| :: data[j] >= 0x80
    ensures VarLength(data, off, window) == None
    decreases window
  {
    if window > 0 && off < |data| {
      NoneWithin(data, off + 1, window - 1);
    }
  }

  /** v & ~0x7F, (v & 0x7F) | 0x80 and v >> 7 */
  lemma SplitSeven(v: nat, bits: nat)
    requires 7 <= bits && v < Pow2(bits)
    ensures Pow2(bits) >= 0x80 && (And(v, Pow2(bits) - 0x80) == 0 <==> v < 0x80)
    ensures Or(And(v, 0x7F), 0x80) == v % 0x80 + 0x80
    ensures Shr(v, 7) == v / 0x80
  {
    hide And, Or, Shr, Pow2, Low;
    Powers();
    AndHigh(v, 7, bits);
    AndMask(v, 7);
    LowIsMod(v, 7);
    ShrIsDiv(v, 7);
    OrDisjoint(v % 0x80, 1, 7);
  }

  /** writeVarUInt (32 bits) and writeVarULong (64 bits). */
  method WriteVarUInt(out: seq<byte>, v: nat, bits: nat) returns (r: seq<byte>)
    requires 7 <= bits && v < Pow2(bits)
    ensures r == out + Leb(v)
  {
    r := out;
    var rest: nat := v;
    while true
      invariant rest < Pow2(bits) && r + Leb(rest) == out + Leb(v)
      decreases rest
    {
      hide And, Or, Shr, Pow2, Low;
      SplitSeven(rest, bits);
      if And(rest, Pow2(bits) - 0x80) == 0 {
        r := r + [rest];
        return;
      }
      assert r + Leb(rest) == r + [rest % 0x80 + 0x80] + Leb(rest / 0x80);
      r := r + [Or(And(rest, 0x7F), 0x80)];
      rest := Shr(rest, 7);
    }
  }
}
