/** Little- and big-endian words: their arithmetic values, and the shift-and-or code that reads and
    writes them. */
module Words {
  import opened Bits

  function ValueLE(bs: seq<byte>): (r: nat) {
    if bs == [] then 0 else bs[0] + 0x100 * ValueLE(bs[1..])
  }

  function BytesLE(v: nat, n: nat): (r: seq<byte>)
    ensures |r| == n
  {
    if n == 0 then [] else [v % 0x100] + BytesLE(v / 0x100, n - 1)
  }

  function ValueBE(bs: seq<byte>): (r: nat) {
    if bs == [] then 0 else ValueBE(bs[..|bs| - 1]) * 0x100 + bs[|bs| - 1]
  }

  function BytesBE(v: nat, n: nat): (r: seq<byte>)
    ensures |r| == n
  {
    if n == 0 then [] else BytesBE(v / 0x100, n - 1) + [v % 0x100]
  }

  lemma Pow2Byte(n: nat)
    ensures Pow2(8 * (n + 1)) == 0x100 * Pow2(8 * n)
  {
    Pow2Add(8 * n, 8);
    Powers();
  }

  // ---------- values and bytes are inverse ----------

  lemma {:induction false} BoundLE(bs: seq<byte>)
    ensures ValueLE(bs) < Pow2(8 * |bs|)
  {
    if bs != [] {
      BoundLE(bs[1..]);
      Pow2Byte(|bs| - 1);
    }
  }

  lemma {:induction false} BytesOfValueLE(bs: seq<byte>)
    ensures BytesLE(ValueLE(bs), |bs|) == bs
  {
    if bs != [] {
      BytesOfValueLE(bs[1..]);
      var r := ValueLE(bs[1..]);
      assert ValueLE(bs) / 0x100 == r && ValueLE(bs) % 0x100 == bs[0];
    }
  }

  lemma {:induction false} ValueOfBytesLE(v: nat, n: nat)
    requires v < Pow2(8 * n)
    ensures ValueLE(BytesLE(v, n)) == v
  {
    if n > 0 {
      Pow2Byte(n - 1);
      ValueOfBytesLE(v / 0x100, n - 1);
      assert BytesLE(v, n)[1..] == BytesLE(v / 0x100, n - 1);
    }
  }

  lemma {:induction false} BoundBE(bs: seq<byte>)
    ensures ValueBE(bs) < Pow2(8 * |bs|)
  {
    if bs != [] {
      BoundBE(bs[..|bs| - 1]);
      Pow2Byte(|bs| - 1);
    }
  }

  lemma {:induction false} BytesOfValueBE(bs: seq<byte>)
    ensures BytesBE(ValueBE(bs), |bs|) == bs
  {
    if bs != [] {
      BytesOfValueBE(bs[..|bs| - 1]);
      var r := ValueBE(bs[..|bs| - 1]);
      assert ValueBE(bs) / 0x100 == r && ValueBE(bs) % 0x100 == bs[|bs| - 1];
    }
  }

  lemma {:induction false} ValueOfBytesBE(v: nat, n: nat)
    requires v < Pow2(8 * n)
    ensures ValueBE(BytesBE(v, n)) == v
  {
    if n > 0 {
      Pow2Byte(n - 1);
      ValueOfBytesBE(v / 0x100, n - 1);
      assert BytesBE(v, n)[..n - 1] == BytesBE(v / 0x100, n - 1);
    }
  }

  // ---------- which byte is which ----------

  lemma DivideTwice(v: nat, a: nat, b: nat)
    requires a > 0 && b > 0
    ensures v / (a * b) == v / a / b
  {
    var w := v / a;
    DivideAndRest(v, a);
    DivideAndRest(w, b);
    TwoRests(v, a, b, w, v % a, w / b, w % b);
  }

  lemma TwoRests(v: int, a: int, b: int, w: int, s: int, q: int, x: int)
    requires a > 0 && b > 0 && v == a * w + s && w == b * q + x && 0 <= s < a && 0 <= x < b
    ensures a * b > 0 && v / (a * b) == q
  {
    Spread(a, b * q, x);
    Triple(a, b, q);
    MulStep(a, x, b);
    MulStep(a, 0, x);
    MulStep(a, 0, b);
    ModIs(v, a * b, q, a * x + s);
  }

  lemma Triple(a: int, b: int, q: int)
    ensures a * (b * q) == (a * b) * q
  {
  }

  lemma Spread(a: int, x: int, y: int)
    ensures a * (x + y) == a * x + a * y
  {
  }

  /** In the little-endian value the i-th byte counts 256 to the i. */
  lemma {:induction false} LittleEndian(bs: seq<byte>, i: nat)
    requires i < |bs|
    ensures ValueLE(bs) / Pow2(8 * i) % 0x100 == bs[i]
  {
    PartsLE(bs);
    hide ValueLE, Pow2;
    if i > 0 {
      LittleEndian(bs[1..], i - 1);
      assert bs[1..][i - 1] == bs[i];
      ByteStep(ValueLE(bs), i);
    } else {
      NoPower();
    }
  }

  /** In the big-endian value it counts 256 to the number of bytes behind it. */
  lemma {:induction false} BigEndian(bs: seq<byte>, i: nat)
    requires i < |bs|
    ensures ValueBE(bs) / Pow2(8 * (|bs| - 1 - i)) % 0x100 == bs[i]
  {
    var n := |bs| - 1;
    PartsBE(bs);
    hide ValueBE, Pow2;
    if i < n {
      BigEndian(bs[..n], i);
      ByteStep(ValueBE(bs), n - i);
    } else {
      NoPower();
    }
  }

  lemma PartsBE(bs: seq<byte>)
    requires bs != []
    ensures var n := |bs| - 1; ValueBE(bs) / 0x100 == ValueBE(bs[..n]) && ValueBE(bs) % 0x100 == bs[n]
  {
    ModIs(ValueBE(bs), 0x100, ValueBE(bs[..|bs| - 1]), bs[|bs| - 1]);
  }

  lemma PartsLE(bs: seq<byte>)
    requires bs != []
    ensures ValueLE(bs) / 0x100 == ValueLE(bs[1..]) && ValueLE(bs) % 0x100 == bs[0]
  {
    ModIs(ValueLE(bs), 0x100, ValueLE(bs[1..]), bs[0]);
  }

  lemma NoPower()
    ensures Pow2(0) == 1
  {
  }

  lemma ByteStep(v: nat, i: nat)
    requires i > 0
    ensures v / Pow2(8 * i) == v / 0x100 / Pow2(8 * (i - 1))
  {
    Powers();
    hide Pow2;
    Pow2Add(8, 8 * (i - 1));
    DivideTwice(v, 0x100, Pow2(8 * (i - 1)));
  }

  // ---------- pieces of a byte string ----------

  /** What stands at `off` when the bytes from there on start with a part. */
  lemma Front(data: seq<byte>, off: nat, a: seq<byte>, rest: seq<byte>)
    requires off <= |data| && data[off..] == a + rest
    ensures off + |a| <= |data| && data[off..off + |a|] == a && data[off + |a|..] == rest
  {
    var d := data[off..];
    assert data[off..off + |a|] == d[..|a|] && data[off + |a|..] == d[|a|..];
  }

  lemma CutAt(data: seq<byte>, a: nat, b: nat)
    requires a <= b <= |data|
    ensures data[a..] == data[a..b] + data[b..]
  {
  }

  // ---------- shift and or ----------

  lemma {:induction false} ShrAdd(v: nat, a: nat, b: nat)
    ensures Shr(Shr(v, a), b) == Shr(v, a + b)
  {
    if a > 0 {
      ShrAdd(v / 2, a - 1, b);
    }
  }

  /** One byte of a word: (v >> 8) and v & 0xff. */
  lemma ByteOf(v: nat)
    ensures Shr(v, 8) == v / 0x100 && And(v, 0xFF) == v % 0x100
  {
    Powers();
    AndMask(v, 8);
    LowIsMod(v, 8);
    ShrIsDiv(v, 8);
  }

  lemma {:induction false} ValueLEAppend(a: seq<byte>, b: byte)
    ensures ValueLE(a + [b]) == ValueLE(a) + b * Pow2(8 * |a|)
  {
    if a == [] {
      assert a + [b] == [b];
    } else {
      ValueLEAppend(a[1..], b);
      assert (a + [b])[1..] == a[1..] + [b];
      Pow2Byte(|a| - 1);
      assert b * Pow2(8 * |a|) == 0x100 * (b * Pow2(8 * (|a| - 1)));
    }
  }

  /** v |= byte << 8*i, on a word that has room for the byte. */
  lemma OrByteLE(a: seq<byte>, b: byte, width: nat)
    requires 8 * (|a| + 1) <= width
    ensures Or(ValueLE(a), Shl(b, 8 * |a|, width)) == ValueLE(a + [b])
  {
    BoundLE(a);
    BoundLE(a + [b]);
    ValueLEAppend(a, b);
    Pow2Mono(8 * (|a| + 1), width);
    OrAt(ValueLE(a), b, 8 * |a|, width);
  }

  lemma OrAt(v: nat, b: nat, k: nat, width: nat)
    requires v < Pow2(k) && v + b * Pow2(k) < Pow2(width)
    ensures Or(v, Shl(b, k, width)) == v + b * Pow2(k)
  {
    assert b * Pow2(k) >= 0;
    LowSmall(b * Pow2(k), width);
    OrDisjoint(v, b, k);
  }

  lemma {:induction false} Pow2Mono(a: nat, b: nat)
    requires a <= b
    ensures Pow2(a) <= Pow2(b)
  {
    if a < b {
      Pow2Mono(a, b - 1);
    }
  }

  /** v = (v << 8) | byte, on a word that has room for the byte. */
  lemma OrByteBE(a: seq<byte>, b: byte, width: nat)
    requires 8 * (|a| + 1) <= width
    ensures Or(Shl(ValueBE(a), 8, width), b) == ValueBE(a + [b])
  {
    Powers();
    assert (a + [b])[..|a|] == a;
    BoundBE(a + [b]);
    Pow2Mono(8 * (|a| + 1), width);
    LowSmall(ValueBE(a) * Pow2(8), width);
    OrDisjoint(b, ValueBE(a), 8);
    OrCommutes(b, ValueBE(a) * Pow2(8));
  }

  /** The leading bytes of a big-endian word are those of the word shifted right. */
  lemma {:induction false} PrefixBE(v: nat, n: nat, k: nat)
    requires k <= n
    ensures BytesBE(v, n)[..k] == BytesBE(Shr(v, 8 * (n - k)), k)
    decreases n - k
  {
    if k < n {
      PrefixBE(v / 0x100, n - 1, k);
      ByteOf(v);
      ShrAdd(v, 8, 8 * (n - 1 - k));
      assert BytesBE(v, n)[..k] == BytesBE(v / 0x100, n - 1)[..k];
    } else {
      assert BytesBE(v, n)[..n] == BytesBE(v, n);
    }
  }

  /** The trailing bytes of a little-endian word are those of the word shifted right. */
  lemma {:induction false} SuffixLE(v: nat, n: nat, k: nat)
    requires k <= n
    ensures BytesLE(v, n)[k..] == BytesLE(Shr(v, 8 * k), n - k)
    decreases k
  {
    if k > 0 {
      SuffixLE(v / 0x100, n - 1, k - 1);
      ByteOf(v);
      ShrAdd(v, 8, 8 * (k - 1));
      assert BytesLE(v, n)[k..] == BytesLE(v / 0x100, n - 1)[k - 1..];
    }
  }

  // ---------- the loops ----------

  /** Appends a word byte by byte from its low end, as the writeU..LE routines do. */
  method WriteLE(out: seq<byte>, v: nat, n: nat) returns (r: seq<byte>)
    ensures r == out + BytesLE(v, n)
  {
    r := out;
    for i := 0 to n
      invariant r == out + BytesLE(v, n)[..i]
    {
      SuffixLE(v, n, i);
      ByteOf(Shr(v, 8 * i));
      assert BytesLE(v, n)[i] == BytesLE(v, n)[i..][0];
      r := r + [And(Shr(v, 8 * i), 0xFF)];
      assert BytesLE(v, n)[..i + 1] == BytesLE(v, n)[..i] + [BytesLE(v, n)[i]];
    }
    assert BytesLE(v, n)[..n] == BytesLE(v, n);
  }

  /** Appends a word byte by byte from its high end, as the writeU..BE routines do. */
  method WriteBE(out: seq<byte>, v: nat, n: nat) returns (r: seq<byte>)
    ensures r == out + BytesBE(v, n)
  {
    r := out;
    for k := 0 to n
      invariant r == out + BytesBE(v, n)[..k]
    {
      var i := n - 1 - k;
      PrefixBE(v, n, k + 1);
      ByteOf(Shr(v, 8 * i));
      assert BytesBE(v, n)[k] == BytesBE(v, n)[..k + 1][k];
      r := r + [And(Shr(v, 8 * i), 0xFF)];
      assert BytesBE(v, n)[..k + 1] == BytesBE(v, n)[..k] + [BytesBE(v, n)[k]];
    }
    assert BytesBE(v, n)[..n] == BytesBE(v, n);
  }

  /** Reads n little-endian bytes at `off`, or-ing each into place. */
  method ReadLE(data: seq<byte>, off: nat, n: nat) returns (v: nat)
    requires off + n <= |data|
    ensures v == ValueLE(data[off..off + n]) && v < Pow2(8 * n)
  {
    v := 0;
    for i := 0 to n
      invariant v == ValueLE(data[off..off + i])
    {
      OrByteLE(data[off..off + i], data[off + i], 8 * n);
      v := Or(v, Shl(data[off + i], 8 * i, 8 * n));
      assert data[off..off + i + 1] == data[off..off + i] + [data[off + i]];
    }
    BoundLE(data[off..off + n]);
  }

  /** Reads n big-endian bytes at `off`, shifting the word left under each. */
  method ReadBE(data: seq<byte>, off: nat, n: nat) returns (v: nat)
    requires off + n <= |data|
    ensures v == ValueBE(data[off..off + n]) && v < Pow2(8 * n)
  {
    v := 0;
    for i := 0 to n
      invariant v == ValueBE(data[off..off + i])
    {
      OrByteBE(data[off..off + i], data[off + i], 8 * n);
      v := Or(Shl(v, 8, 8 * n), data[off + i]);
      assert data[off..off + i + 1] == data[off..off + i] + [data[off + i]];
    }
    BoundBE(data[off..off + n]);
  }
}
