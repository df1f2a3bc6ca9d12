/** base64Decode, base64UrlDecode, splitJwt and the JWT extractors of src/BedrockKeyExchange.cpp,
    against the encoding of RFC 4648 (sections 4 and 5). */
module Base64 {
  import opened Wrappers
  import opened Text
  import opened Bits
  import opened Splitting

  type Bytes = seq<byte>

  // ---------- the encoding of RFC 4648 ----------

  type Sextet = x: int | 0 <= x < 64

  /** The URL- and filename-safe alphabet (table 2). */
  function UrlChar(v: Sextet): char {
    if v < 26 then ('A' as int + v) as char
    else if v < 52 then ('a' as int + (v - 26)) as char
    else if v < 62 then ('0' as int + (v - 52)) as char
    else if v == 62 then '-' else '_'
  }

  /** The characters of a 24-bit group. */
  function Quad(v: nat): (r: string)
    requires v < 0x100_0000
    ensures |r| == 4
  {
    [UrlChar(v / 0x4_0000), UrlChar(v / 0x1000 % 64), UrlChar(v / 64 % 64), UrlChar(v % 64)]
  }

  function Group(a: byte, b: byte, c: byte): (r: nat)
    ensures r < 0x100_0000
  {
    a * 0x1_0000 + b * 0x100 + c
  }

  /** The encoding without padding: a last group of one or two bytes gives two or three characters. */
  function Unpadded(bs: Bytes): string {
    if bs == [] then ""
    else if |bs| == 1 then Quad(Group(bs[0], 0, 0))[..2]
    else if |bs| == 2 then Quad(Group(bs[0], bs[1], 0))[..3]
    else Quad(Group(bs[0], bs[1], bs[2])) + Unpadded(bs[3..])
  }

  /** How many padding characters complete the last group. */
  function Pads(bs: Bytes): (r: nat)
    ensures r <= 2
  {
    (3 - |bs| % 3) % 3
  }

  function Equals(n: nat): (r: string)
    ensures |r| == n && forall i | 0 <= i < n :: r[i] == '='
  {
    if n == 0 then "" else "=" + Equals(n - 1)
  }

  // ---------- the decoder ----------

  /** The text without whitespace. */
  function Strip(s: string): string {
    if s == "" then "" else (if IsSpace(s[0]) then "" else [s[0]]) + Strip(s[1..])
  }

  function StdChar(c: char): char {
    if c == '-' then '+' else if c == '_' then '/' else c
  }

  /** '-' and '_' turned into the standard alphabet's '+' and '/'. */
  function ToStd(s: string): (r: string)
    ensures |r| == |s| && forall i | 0 <= i < |s| :: r[i] == StdChar(s[i])
  {
    if s == "" then "" else [StdChar(s[0])] + ToStd(s[1..])
  }

  /** The value EVP_DecodeBlock gives a character; '=' counts as zero, anything foreign is None. */
  function Ascii2Bin(c: char): (r: Option<Sextet>) {
    if 'A' <= c <= 'Z' then Some(c as int - 'A' as int)
    else if 'a' <= c <= 'z' then Some(c as int - 'a' as int + 26)
    else if '0' <= c <= '9' then Some(c as int - '0' as int + 52)
    else if c == '+' then Some(62)
    else if c == '/' then Some(63)
    else if c == '=' then Some(0)
    else None
  }

  /** Four characters to three bytes. */
  function Decode4(a: char, b: char, c: char, d: char): (r: Option<Bytes>)
    ensures r.Some? ==> |r.value| == 3
  {
    var w, x, y, z := Ascii2Bin(a), Ascii2Bin(b), Ascii2Bin(c), Ascii2Bin(d);
    if w.None? || x.None? || y.None? || z.None? then None
    else ThreeBytes(w.value * 0x4_0000 + x.value * 0x1000 + y.value * 64 + z.value)
  }

  function ThreeBytes(v: nat): (r: Option<Bytes>)
    requires v < 0x100_0000
    ensures r.Some? && |r.value| == 3
  {
    Some([v / 0x1_0000, v / 0x100 % 0x100, v % 0x100])
  }

  /** Group by group; None where EVP_DecodeBlock returns -1. */
  function Groups(t: string): (r: Option<Bytes>)
    ensures r.Some? ==> |t| % 4 == 0 && |r.value| == |t| / 4 * 3
  {
    if t == "" then Some([])
    else if |t| < 4 then None
    else
      var g, rest := Decode4(t[0], t[1], t[2], t[3]), Groups(t[4..]);
      if g.None? || rest.None? then None else Some(g.value + rest.value)
  }

  /** EVP_DecodeBlock first drops trailing '-' characters, while more than three characters are left. */
  function DropDashes(t: string): (r: string) {
    if |t| > 3 && t[|t| - 1] == '-' then DropDashes(t[..|t| - 1]) else t
  }

  /** Dashes go from the end of a text until another character stands there or three are left. */
  lemma {:induction false} DashesDropped(t: string)
    ensures var r := DropDashes(t);
            && |r| <= |t| && r == t[..|r|] && (forall i | |r| <= i < |t| :: t[i] == '-')
            && (|r| <= 3 || r[|r| - 1] != '-') && (|r| < |t| ==> |r| >= 3)
    decreases |t|
  {
    if |t| > 3 && t[|t| - 1] == '-' {
      DashesDropped(t[..|t| - 1]);
    }
  }

  function EvpDecodeBlock(t: string): Option<Bytes> {
    Groups(DropDashes(t))
  }

  /** '=' added until the length is a multiple of four. */
  function PadToFour(t: string): (r: string)
    ensures |r| % 4 == 0
    decreases (4 - |t| % 4) % 4
  {
    if |t| % 4 == 0 then t else PadToFour(t + "=")
  }

  /** The '=' characters among the last two. */
  function PadChars(t: string): nat {
    (if |t| >= 1 && t[|t| - 1] == '=' then 1 else 0) + (if |t| >= 2 && t[|t| - 2] == '=' then 1 else 0)
  }

  function Decoded(input: string): Option<Bytes> {
    var b64 := PadToFour(Strip(input));
    match EvpDecodeBlock(b64)
    case None => None
    case Some(out) => Some(if |out| >= PadChars(b64) then out[..|out| - PadChars(b64)] else out)
  }

  function UrlDecoded(b64url: string): Option<Bytes> {
    Decoded(ToStd(b64url))
  }

  // ---------- the C++ routines ----------

  method StripSpaces(input: string) returns (b64: string)
    ensures b64 == Strip(input)
  {
    hide IsSpace;
    b64 := "";
    for i := 0 to |input|
      invariant Strip(input) == b64 + Strip(input[i..])
    {
      assert input[i..][1..] == input[i + 1..];
      StripStep(b64, input[i..]);
      if !IsSpace(input[i]) {
        b64 := b64 + [input[i]];
      }
    }
    assert Strip(input[|input|..]) == "";
  }

  lemma StripStep(b64: string, rest: string)
    requires rest != ""
    ensures b64 + Strip(rest) == (if IsSpace(rest[0]) then b64 else b64 + [rest[0]]) + Strip(rest[1..])
  {
    hide IsSpace;
    if !IsSpace(rest[0]) {
      assert b64 + ([rest[0]] + Strip(rest[1..])) == b64 + [rest[0]] + Strip(rest[1..]);
    } else {
      assert "" + Strip(rest[1..]) == Strip(rest[1..]);
    }
  }

  method Base64Decode(input: string) returns (r: Option<Bytes>)
    ensures r == Decoded(input)
  {
    hide Strip, EvpDecodeBlock, IsSpace;
    var b64 := StripSpaces(input);
    while |b64| % 4 != 0
      invariant PadToFour(b64) == PadToFour(Strip(input))
      decreases (4 - |b64| % 4) % 4
    {
      b64 := b64 + "=";
    }
    var out := EvpDecodeBlock(b64);
    if out.None? {
      return None;
    }
    var realLen, padChars := |out.value|, 0;
    if |b64| != 0 && b64[|b64| - 1] == '=' {
      padChars := padChars + 1;
    }
    if |b64| >= 2 && b64[|b64| - 2] == '=' {
      padChars := padChars + 1;
    }
    if realLen >= padChars {
      realLen := realLen - padChars;
    }
    assert out.value[..|out.value|] == out.value;
    return Some(out.value[..realLen]);
  }

  method Base64UrlDecode(b64url: string) returns (r: Option<Bytes>)
    ensures r == UrlDecoded(b64url)
  {
    hide Decoded;
    var b64 := b64url;
    for i := 0 to |b64url|
      invariant |b64| == |b64url|
      invariant forall j | 0 <= j < i :: b64[j] == StdChar(b64url[j])
      invariant forall j | i <= j < |b64| :: b64[j] == b64url[j]
    {
      if b64[i] == '-' {
        b64 := b64[i := '+'];
      }
      if b64[i] == '_' {
        b64 := b64[i := '/'];
      }
    }
    assert b64 == ToStd(b64url);
    r := Base64Decode(b64);
  }

  // ---------- decoding what was encoded ----------

  lemma CharBack(v: Sextet)
    ensures Ascii2Bin(StdChar(UrlChar(v))) == Some(v)
    ensures var c := StdChar(UrlChar(v)); c != '=' && c != '-' && !IsSpace(UrlChar(v)) && UrlChar(v) != '.'
  {
  }

  lemma Decode4Of(w: Sextet, x: Sextet, y: Sextet, z: Sextet)
    ensures Decode4(StdChar(UrlChar(w)), StdChar(UrlChar(x)), StdChar(UrlChar(y)), StdChar(UrlChar(z)))
            == ThreeBytes(w * 0x4_0000 + x * 0x1000 + y * 64 + z)
  {
    CharBack(w);
    CharBack(x);
    CharBack(y);
    CharBack(z);
    hide IsSpace, UrlChar, StdChar, Ascii2Bin, ThreeBytes;
  }

  /** The group of four characters gives back the three bytes. */
  lemma QuadBack(a: byte, b: byte, c: byte)
    ensures var q := Quad(Group(a, b, c));
            Decode4(StdChar(q[0]), StdChar(q[1]), StdChar(q[2]), StdChar(q[3])) == Some([a, b, c])
  {
    var v := Group(a, b, c);
    SextetsSum(v);
    BytesOfGroup(a, b, c);
    hide IsSpace, UrlChar, StdChar, Ascii2Bin, Decode4, Group;
    Decode4Of(v / 0x4_0000, v / 0x1000 % 64, v / 64 % 64, v % 64);
  }

  lemma SextetsSum(v: nat)
    requires v < 0x100_0000
    ensures v / 0x4_0000 * 0x4_0000 + v / 0x1000 % 64 * 0x1000 + v / 64 % 64 * 64 + v % 64 == v
  {
    assert v / 64 / 64 == v / 0x1000 && v / 0x1000 / 64 == v / 0x4_0000;
  }

  lemma BytesOfGroup(a: byte, b: byte, c: byte)
    ensures var v := Group(a, b, c); v / 0x1_0000 == a && v / 0x100 % 0x100 == b && v % 0x100 == c
  {
    var v := Group(a, b, c);
    assert v / 0x100 == a * 0x100 + b;
  }

  function Zeros(n: nat): (r: Bytes)
    ensures |r| == n
  {
    if n == 0 then [] else [0] + Zeros(n - 1)
  }

  lemma {:induction false} ToStdConcat(a: string, b: string)
    ensures ToStd(a + b) == ToStd(a) + ToStd(b)
  {
  }

  /** One group in front of a decodable rest. */
  lemma GroupsStep(q: string, rest: string)
    requires |q| == 4
    ensures var g, r := Decode4(q[0], q[1], q[2], q[3]), Groups(rest);
            Groups(q + rest) == if g.None? || r.None? then None else Some(g.value + r.value)
  {
    hide Decode4;
    assert (q + rest)[4..] == rest;
  }

  lemma LastGroup(a: byte, b: byte)
    ensures var q := ToStd(Quad(Group(a, b, 0)));
            && Groups(q[..3] + "=") == Some([a, b, 0])
            && (b == 0 ==> Groups(q[..2] + "==") == Some([a, 0, 0]))
  {
    var q := ToStd(Quad(Group(a, b, 0)));
    QuadBack(a, b, 0);
    LastSextets(a, b);
    EqualsIsZero(q[0], q[1], q[2]);
    hide Decode4, Group, Quad, ToStd, StdChar, UrlChar;
    assert q[..3] + "=" == [q[0], q[1], q[2], '='] + "" && q[..2] + "==" == [q[0], q[1], '=', '='] + "";
    GroupsStep([q[0], q[1], q[2], '='], "");
    GroupsStep([q[0], q[1], '=', '='], "");
    assert [a, b, 0] + [] == [a, b, 0];
  }

  /** A sextet without bits is printed as 'A' and read like '='. */
  lemma LastSextets(a: byte, b: byte)
    ensures ToStd(Quad(Group(a, b, 0)))[3] == 'A'
    ensures b == 0 ==> ToStd(Quad(Group(a, b, 0)))[2] == 'A'
  {
    var v := Group(a, b, 0);
    assert v % 64 == 0;
    assert b == 0 ==> v / 64 % 64 == 0;
    var q := Quad(v);
    assert ToStd(q)[3] == StdChar(q[3]) && ToStd(q)[2] == StdChar(q[2]);
  }

  lemma EqualsIsZero(a: char, b: char, c: char)
    ensures Decode4(a, b, c, '=') == Decode4(a, b, c, 'A')
    ensures Decode4(a, b, '=', '=') == Decode4(a, b, 'A', 'A')
  {
  }

  lemma {:induction false} GroupsOfPadded(bs: Bytes)
    ensures Groups(ToStd(Unpadded(bs)) + Equals(Pads(bs))) == Some(bs + Zeros(Pads(bs)))
    decreases |bs|
  {
    hide Groups, ToStd, Quad, Group, Equals, Zeros, Decode4;
    SmallPads();
    if bs == [] {
      assert "" + "" == "" && bs + [] == bs;
    } else if |bs| == 1 {
      OneLeft(bs);
    } else if |bs| == 2 {
      TwoLeft(bs);
    } else {
      var q, tail := Quad(Group(bs[0], bs[1], bs[2])), bs[3..];
      var n := Pads(bs);
      assert Pads(tail) == n;
      GroupsOfPadded(tail);
      QuadDecodes(bs[0], bs[1], bs[2], ToStd(Unpadded(tail)) + Equals(n));
      ToStdConcat(q, Unpadded(tail));
      Concat3(ToStd(q), ToStd(Unpadded(tail)), Equals(n));
      ThreeAndRest(bs, n);
    }
  }

  lemma SmallPads()
    ensures Equals(0) == "" && Equals(1) == "=" && Equals(2) == "=="
    ensures Zeros(0) == [] && Zeros(1) == [0] && Zeros(2) == [0, 0]
    ensures Groups("") == Some([]) && ToStd("") == ""
  {
  }

  lemma QuadDecodes(a: byte, b: byte, c: byte, rest: string)
    requires Groups(rest).Some?
    ensures Groups(ToStd(Quad(Group(a, b, c))) + rest) == Some([a, b, c] + Groups(rest).value)
  {
    QuadBack(a, b, c);
    hide Groups, Quad, Group, Decode4, StdChar;
    GroupsStep(ToStd(Quad(Group(a, b, c))), rest);
  }

  lemma ThreeAndRest(bs: Bytes, n: nat)
    requires |bs| >= 3
    ensures [bs[0], bs[1], bs[2]] + (bs[3..] + Zeros(n)) == bs + Zeros(n)
  {
  }

  lemma OneLeft(bs: Bytes)
    requires |bs| == 1
    ensures Groups(ToStd(Unpadded(bs)) + Equals(Pads(bs))) == Some(bs + Zeros(Pads(bs)))
  {
    hide Groups, ToStd, Quad, Group, Equals, Zeros;
    SmallPads();
    LastGroup(bs[0], 0);
    ToStdTake(Quad(Group(bs[0], 0, 0)), 2);
    assert bs + [0, 0] == [bs[0], 0, 0];
  }

  lemma TwoLeft(bs: Bytes)
    requires |bs| == 2
    ensures Groups(ToStd(Unpadded(bs)) + Equals(Pads(bs))) == Some(bs + Zeros(Pads(bs)))
  {
    hide Groups, ToStd, Quad, Group, Equals, Zeros;
    SmallPads();
    LastGroup(bs[0], bs[1]);
    ToStdTake(Quad(Group(bs[0], bs[1], 0)), 3);
    assert bs + [0] == [bs[0], bs[1], 0];
  }

  lemma ToStdTake(q: string, n: nat)
    requires n <= |q|
    ensures ToStd(q[..n]) == ToStd(q)[..n]
  {
    hide ToStd, StdChar;
  }

  /** The characters of an encoding: no '=', no space, no '.', and no '-' in the standard alphabet. */
  ghost predicate Plain(t: string) {
    forall i | 0 <= i < |t| :: t[i] != '=' && t[i] != '.' && !IsSpace(t[i])
                                && StdChar(t[i]) != '=' && StdChar(t[i]) != '-'
  }

  lemma QuadPlain(v: nat)
    requires v < 0x100_0000
    ensures Plain(Quad(v))
  {
    CharBack(v / 0x4_0000);
    CharBack(v / 0x1000 % 64);
    CharBack(v / 64 % 64);
    CharBack(v % 64);
    hide IsSpace, Ascii2Bin;
  }

  lemma {:induction false} UnpaddedPlain(bs: Bytes)
    ensures Plain(Unpadded(bs))
    ensures (|Unpadded(bs)| + Pads(bs)) % 4 == 0 && (|bs| > 0 ==> |Unpadded(bs)| >= 2)
    decreases |bs|
  {
    hide IsSpace, StdChar, Quad;
    if |bs| == 1 {
      QuadPlain(Group(bs[0], 0, 0));
    } else if |bs| == 2 {
      QuadPlain(Group(bs[0], bs[1], 0));
    } else if |bs| > 2 {
      QuadPlain(Group(bs[0], bs[1], bs[2]));
      UnpaddedPlain(bs[3..]);
      var q := Quad(Group(bs[0], bs[1], bs[2]));
      assert Unpadded(bs) == q + Unpadded(bs[3..]);
    }
  }

  /** A standard encoding, padded or not, decodes to its bytes. */
  lemma StandardRoundTrip(s: string, bs: Bytes)
    requires Strip(s) == ToStd(Unpadded(bs)) || Strip(s) == ToStd(Unpadded(bs)) + Equals(Pads(bs))
    ensures Decoded(s) == Some(bs)
  {
    hide Groups, Unpadded, Strip, ToStd, PadToFour, Plain, DropDashes, PadChars, Equals, Zeros;
    var e, n := ToStd(Unpadded(bs)), Pads(bs);
    UnpaddedPlain(bs);
    GroupsOfPadded(bs);
    PadsToFull(e, n);
    LastChars(Unpadded(bs), bs);
    WithoutZeros(bs, n);
  }

  lemma WithoutZeros(bs: Bytes, n: nat)
    ensures var out := bs + Zeros(n); |out| == |bs| + n && out[..|bs|] == bs
  {
  }

  lemma PadsToFull(e: string, n: nat)
    requires n <= 3 && (|e| + n) % 4 == 0
    ensures PadToFour(e) == PadToFour(e + Equals(n)) == e + Equals(n)
  {
    hide PadToFour, Equals;
    PadIs(e, n);
    PadIs(e + Equals(n), 0);
    SmallPads();
    assert e + Equals(n) + "" == e + Equals(n);
  }

  lemma {:induction false} PadIs(t: string, n: nat)
    requires n <= 3 && (|t| + n) % 4 == 0
    ensures PadToFour(t) == t + Equals(n)
    decreases n
  {
    if n == 0 {
      assert t + Equals(0) == t;
    } else {
      PadIs(t + "=", n - 1);
      assert t + "=" + Equals(n - 1) == t + ("=" + Equals(n - 1));
    }
  }

  lemma LastChars(u: string, bs: Bytes)
    requires u == Unpadded(bs) && Plain(u) && (|bs| > 0 ==> |u| >= 2)
    ensures var full := ToStd(u) + Equals(Pads(bs));
            PadChars(full) == Pads(bs) && DropDashes(full) == full
  {
    hide IsSpace, StdChar, Unpadded, Equals, ToStd, DropDashes, PadChars;
    var e := ToStd(u);
    assert forall i | 0 <= i < |e| :: e[i] != '=' && e[i] != '-';
    if bs == [] {
      NothingPadded();
    } else {
      PadCharsOf(e, Pads(bs));
    }
  }

  lemma NothingPadded()
    ensures var full := ToStd(Unpadded([])) + Equals(Pads([]));
            PadChars(full) == Pads([]) && DropDashes(full) == full
  {
    assert ToStd("") == "" && Equals(0) == "";
  }

  lemma PadCharsOf(e: string, n: nat)
    requires n <= 2 && |e| >= 2 && forall i | 0 <= i < |e| :: e[i] != '=' && e[i] != '-'
    ensures PadChars(e + Equals(n)) == n && DropDashes(e + Equals(n)) == e + Equals(n)
  {
    hide Equals;
    var full := e + Equals(n);
    assert full[|full| - 1] == if n > 0 then '=' else e[|e| - 1];
    assert full[|full| - 2] == if n > 1 then '=' else e[|e| - 2 + n];
  }

  // ---------- whitespace and alphabets ----------

  lemma {:induction false} StripToStd(s: string)
    ensures Strip(ToStd(s)) == ToStd(Strip(s))
  {
    if s != "" {
      StripToStd(s[1..]);
      assert ToStd(s)[1..] == ToStd(s[1..]) && ToStd(s)[0] == StdChar(s[0]);
      assert IsSpace(StdChar(s[0])) == IsSpace(s[0]);
      hide IsSpace, StdChar;
      if IsSpace(s[0]) {
        assert "" + Strip(s[1..]) == Strip(s[1..]);
        assert "" + Strip(ToStd(s[1..])) == Strip(ToStd(s[1..]));
      } else {
        ToStdConcat([s[0]], Strip(s[1..]));
        assert ToStd([s[0]]) == [StdChar(s[0])];
      }
    }
  }

  lemma ToStdEquals(n: nat)
    ensures ToStd(Equals(n)) == Equals(n)
  {
  }

  /** The URL-safe encoding of any bytes, padded or not and with whitespace anywhere in it, decodes to
      those bytes. */
  lemma UrlRoundTrip(s: string, bs: Bytes)
    requires Strip(s) == Unpadded(bs) || Strip(s) == Unpadded(bs) + Equals(Pads(bs))
    ensures UrlDecoded(s) == Some(bs)
  {
    hide Strip, ToStd, Unpadded, Decoded, Equals;
    StripToStd(s);
    ToStdConcat(Unpadded(bs), Equals(Pads(bs)));
    ToStdEquals(Pads(bs));
    StandardRoundTrip(ToStd(s), bs);
  }

  lemma {:induction false} StripPlain(s: string)
    requires Plain(s)
    ensures Strip(s) == s
  {
    hide IsSpace, StdChar;
    if s != "" {
      StripPlain(s[1..]);
      assert s == [s[0]] + s[1..];
    }
  }

  // ---------- exactly what is accepted ----------

  predicate Base64Char(c: char) {
    Ascii2Bin(StdChar(c)).Some?
  }

  lemma {:induction false} GroupsExactly(t: string)
    requires |t| % 4 == 0
    ensures Groups(t).Some? <==> forall i | 0 <= i < |t| :: Ascii2Bin(t[i]).Some?
    decreases |t|
  {
    hide Ascii2Bin;
    if t != "" {
      GroupsExactly(t[4..]);
      assert forall i | 4 <= i < |t| :: t[i] == t[4..][i - 4];
    }
  }

  lemma {:induction false} DroppedNone(t: string)
    requires forall i | 0 <= i < |t| :: t[i] != '-'
    ensures DropDashes(t) == t
  {
  }

  lemma {:induction false} StripMembers(s: string)
    ensures forall c :: c in Strip(s) <==> c in s && !IsSpace(c)
  {
    hide IsSpace;
    if s != "" {
      StripMembers(s[1..]);
      assert s == [s[0]] + s[1..];
    }
  }

  /** base64UrlDecode fails exactly when some character is neither whitespace, nor '=', nor of one of
      the two alphabets. */
  lemma AcceptsExactly(s: string)
    ensures UrlDecoded(s).Some? <==> forall c | c in s :: IsSpace(c) || Base64Char(c)
  {
    hide Strip, ToStd, Groups, Ascii2Bin, IsSpace, PadToFour, StdChar;
    StripToStd(s);
    var t := Strip(s);
    StripMembers(s);
    var u := ToStd(t);
    var n := (4 - |u| % 4) % 4;
    PadIs(u, n);
    var full := u + Equals(n);
    PaddingChars();
    assert forall i | 0 <= i < |u| :: full[i] == StdChar(t[i]);
    assert forall i | |u| <= i < |full| :: full[i] == '=';
    DroppedNone(full);
    GroupsExactly(full);
    if forall c | c in s :: IsSpace(c) || Base64Char(c) {
      forall i | 0 <= i < |full|
        ensures Ascii2Bin(full[i]).Some?
      {
        assert i < |u| ==> t[i] in t && Base64Char(t[i]);
      }
    }
    if UrlDecoded(s).Some? {
      forall c | c in s && !IsSpace(c)
        ensures Base64Char(c)
      {
        var i :| 0 <= i < |t| && t[i] == c;
        assert full[i] == StdChar(c);
      }
    }
  }

  lemma PaddingChars()
    ensures Ascii2Bin('=').Some? && forall c: char :: StdChar(c) != '-'
  {
  }

  // ---------- JSON web tokens ----------

  datatype JwtError = TooFewParts | NotBase64

  /** A std::string of the bytes. */
  function Chars(bs: Bytes): (r: string)
    ensures |r| == |bs| && forall i | 0 <= i < |bs| :: r[i] == bs[i] as char
  {
    seq(|bs|, i requires 0 <= i < |bs| => bs[i] as char)
  }

  method SplitJwt(jwt: string) returns (r: Result<seq<string>, JwtError>)
    ensures r == if '.' in jwt then Ok(Split(jwt, '.')) else Err(TooFewParts)
    ensures r.Ok? ==> |r.value| >= 2
  {
    var parts := SplitLoop(jwt, '.');
    PartsExactly(jwt);
    if |parts| < 2 {
      return Err(TooFewParts);
    }
    return Ok(parts);
  }

  /** A text has two parts or more exactly when it holds a separator. */
  lemma PartsExactly(jwt: string)
    ensures |Split(jwt, '.')| >= 2 <==> '.' in jwt
  {
    var i := FirstSep(jwt, '.');
    if i == |jwt| {
      assert jwt[..i] == jwt;
      SplitOne(jwt, '.');
    } else {
      assert jwt == jwt[..i] + ['.'] + jwt[i + 1..];
      SplitMore(jwt[..i], jwt[i + 1..], '.');
    }
  }

  function JwtPart(jwt: string, k: nat): Result<string, JwtError>
    requires k < 2
  {
    var parts := Split(jwt, '.');
    if |parts| < 2 then Err(TooFewParts)
    else
      match UrlDecoded(parts[k])
      case None => Err(NotBase64)
      case Some(bs) => Ok(Chars(bs))
  }

  /** extractJwtHeaderJson (k = 0) and extractJwtPayloadJson (k = 1) */
  method ExtractJwtJson(jwt: string, k: nat) returns (r: Result<string, JwtError>)
    requires k < 2
    ensures r == JwtPart(jwt, k)
  {
    var parts := SplitJwt(jwt);
    PartsExactly(jwt);
    if parts.Err? {
      return Err(parts.error);
    }
    var bytes := Base64UrlDecode(parts.value[k]);
    if bytes.None? {
      return Err(NotBase64);
    }
    return Ok(Chars(bytes.value));
  }

  /** Header and payload of a token come out as they were put in, whatever signature follows. */
  lemma JwtRoundTrip(header: Bytes, payload: Bytes, tail: string)
    requires tail == "" || tail[0] == '.'
    ensures var jwt := Unpadded(header) + "." + (Unpadded(payload) + tail);
            JwtPart(jwt, 0) == Ok(Chars(header)) && JwtPart(jwt, 1) == Ok(Chars(payload))
  {
    hide Unpadded, SplitFrom, Strip, UrlDecoded, IsSpace, StdChar, Equals;
    var h, p := Unpadded(header), Unpadded(payload);
    UnpaddedPlain(header);
    UnpaddedPlain(payload);
    StripPlain(h);
    StripPlain(p);
    UrlRoundTrip(h, header);
    UrlRoundTrip(p, payload);
    SplitMore(h, p + tail, '.');
    FirstPart(p, tail);
  }

  lemma FirstPart(p: string, tail: string)
    requires '.' !in p && (tail == "" || tail[0] == '.')
    ensures Split(p + tail, '.')[0] == p
  {
    if tail == "" {
      SplitOne(p, '.');
      assert p + tail == p;
    } else {
      SplitMore(p, tail[1..], '.');
      assert p + ['.'] + tail[1..] == p + tail;
    }
  }
}
