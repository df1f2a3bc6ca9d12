/** LoginPacketCodec (src/LoginPacket.cpp): a header varint, a big-endian version, a varint payload
    length and two little-endian length-prefixed strings. Strings are byte sequences. */
module LoginPacket {
  import opened Wrappers
  import opened Bits
  import opened Words
  import opened Leb128

  const PACKET_ID_LOGIN: byte := 0x01

  type Bytes = seq<byte>

  datatype LoginError =
    | VarOutOfRange | VarTooBig | WordOutOfRange | StringTooLarge | StringExceedsBuffer
    | NotLogin | PayloadExceedsPacket | PayloadTrailing | PacketTrailing

  datatype Login = Login(protocolVersion: u32, identity: Bytes, client: Bytes)

  // ---------- the format ----------

  function Str(s: Bytes): Bytes {
    BytesLE(|s|, 4) + s
  }

  /** A packet with header h and payload length prefix g. */
  function Layout(h: Bytes, g: Bytes, p: Login): Bytes {
    h + (BytesBE(p.protocolVersion, 4) + (g + (Str(p.identity) + Str(p.client))))
  }

  function PayloadSize(p: Login): nat {
    8 + |p.identity| + |p.client|
  }

  function Encoded(p: Login): Result<Bytes, LoginError> {
    if |p.identity| > 0xFFFF_FFFF || |p.client| > 0xFFFF_FFFF then Err(StringTooLarge)
    else Ok(Layout(Leb(PACKET_ID_LOGIN), Leb(PayloadSize(p) % 0x1_0000_0000), p))
  }

  /** A varint read as a 32-bit word of value v. */
  ghost predicate Word(h: Bytes, v: nat) {
    IsVarint(h) && |h| <= 5 && Value(h) % 0x1_0000_0000 == v
  }

  /** The packets decode takes: the header's low ten bits name the login packet, its other bits are
      free; the payload length is exact and nothing follows the strings. */
  ghost predicate Grammar(data: Bytes, h: Bytes, g: Bytes, p: Login) {
    && (exists v: u32 :: Word(h, v) && v % 0x400 == PACKET_ID_LOGIN)
    && Word(g, PayloadSize(p))
    && data == Layout(h, g, p)
  }

  // ---------- what decode computes ----------

  function VarWord(data: Bytes, off: nat): (r: Result<(u32, nat), LoginError>)
    ensures r.Ok? ==> off < r.value.1 <= |data|
  {
    Word32();
    match ReadVar(data, off, 5, 32)
    case Got(v, next) => Ok((v, next))
    case OutOfRange(_) => Err(VarOutOfRange)
    case TooBig(_) => Err(VarTooBig)
  }

  function BigWord(data: Bytes, off: nat): (r: Result<(u32, nat), LoginError>)
    ensures r.Ok? ==> r.value.1 == off + 4 <= |data|
  {
    if off + 4 > |data| then Err(WordOutOfRange) else
    BoundBE(data[off..off + 4]);
    Word32();
    Ok((ValueBE(data[off..off + 4]), off + 4))
  }

  function ReadStr(data: Bytes, off: nat): (r: Result<(Bytes, nat), LoginError>)
    ensures r.Ok? ==> off + 4 <= r.value.1 <= |data| && |r.value.0| == r.value.1 - off - 4
  {
    if off + 4 > |data| then Err(WordOutOfRange) else
    var len := ValueLE(data[off..off + 4]);
    if off + 4 + len > |data| then Err(StringExceedsBuffer)
    else Ok((data[off + 4..off + 4 + len], off + 4 + len))
  }

  /** The two strings, and the checks that nothing is left at either level. */
  function Strings(data: Bytes, off: nat, end: nat, version: u32): Result<Login, LoginError> {
    match ReadStr(data, off)
    case Err(e) => Err(e)
    case Ok((identity, o)) =>
      match ReadStr(data, o)
      case Err(e) => Err(e)
      case Ok((client, o')) =>
        if o' != end then Err(PayloadTrailing)
        else if o' != |data| then Err(PacketTrailing)
        else Ok(Login(version, identity, client))
  }

  function Payload(data: Bytes, off: nat, version: u32): Result<Login, LoginError> {
    match VarWord(data, off)
    case Err(e) => Err(e)
    case Ok((len, o)) =>
      if o + len > |data| then Err(PayloadExceedsPacket) else Strings(data, o, o + len, version)
  }

  function Decoded(data: Bytes): Result<Login, LoginError> {
    match VarWord(data, 0)
    case Err(e) => Err(e)
    case Ok((header, o)) =>
      if header % 0x400 != PACKET_ID_LOGIN then Err(NotLogin) else
      match BigWord(data, o)
      case Err(e) => Err(e)
      case Ok((version, o')) => Payload(data, o', version)
  }

  // ---------- the C++ routines ----------

  method ReadStringU32LE(data: Bytes, off: nat) returns (r: Result<(Bytes, nat), LoginError>)
    ensures r == ReadStr(data, off)
  {
    if off + 4 > |data| {
      return Err(WordOutOfRange);
    }
    var len := ReadLE(data, off, 4);
    var o := off + 4;
    if o + len > |data| {
      return Err(StringExceedsBuffer);
    }
    return Ok((data[o..o + len], o + len));
  }

  method ReadWord(data: Bytes, off: nat) returns (r: Result<(u32, nat), LoginError>)
    ensures r == VarWord(data, off)
  {
    var read := ReadVarUInt(data, off, 5, 32);
    Word32();
    match read {
      case Got(v, next) => return Ok((v, next));
      case OutOfRange(_) => return Err(VarOutOfRange);
      case TooBig(_) => return Err(VarTooBig);
    }
  }

  method Decode(packet: Bytes) returns (r: Result<Login, LoginError>)
    ensures r == Decoded(packet)
  {
    hide VarWord, ReadStr, ValueBE;
    var first := ReadWord(packet, 0);
    if first.Err? {
      return Err(first.error);
    }
    var (header, off) := first.value;
    TenBits(header);
    if And(header, 0x3FF) != PACKET_ID_LOGIN {
      return Err(NotLogin);
    }
    if off + 4 > |packet| {
      return Err(WordOutOfRange);
    }
    var version := ReadBE(packet, off, 4);
    Word32();
    off := off + 4;
    var second := ReadWord(packet, off);
    if second.Err? {
      return Err(second.error);
    }
    var payloadLen := second.value.0;
    off := second.value.1;
    if off + payloadLen > |packet| {
      return Err(PayloadExceedsPacket);
    }
    var payloadEnd := off + payloadLen;
    var identity := ReadStringU32LE(packet, off);
    if identity.Err? {
      return Err(identity.error);
    }
    var client := ReadStringU32LE(packet, identity.value.1);
    if client.Err? {
      return Err(client.error);
    }
    off := client.value.1;
    if off != payloadEnd {
      return Err(PayloadTrailing);
    }
    if off != |packet| {
      return Err(PacketTrailing);
    }
    return Ok(Login(version, identity.value.0, client.value.0));
  }

  lemma TenBits(v: nat)
    ensures And(v, 0x3FF) == v % 0x400
  {
    Powers();
    AndMask(v, 10);
    LowIsMod(v, 10);
  }

  method Encode(protocolVersion: u32, identity: Bytes, client: Bytes) returns (r: Result<Bytes, LoginError>)
    ensures r == Encoded(Login(protocolVersion, identity, client))
  {
    hide Leb, BytesLE, BytesBE;
    if |identity| > 0xFFFF_FFFF {
      return Err(StringTooLarge);
    }
    var tokens := WriteLE([], |identity|, 4);
    tokens := tokens + identity;
    if |client| > 0xFFFF_FFFF {
      return Err(StringTooLarge);
    }
    tokens := WriteLE(tokens, |client|, 4);
    tokens := tokens + client;
    Word32();
    var out := WriteVarUInt([], PACKET_ID_LOGIN, 32);
    out := WriteBE(out, protocolVersion, 4);
    out := WriteVarUInt(out, |tokens| % 0x1_0000_0000, 32);
    out := out + tokens;
    var p := Login(protocolVersion, identity, client);
    assert tokens == Str(identity) + Str(client) && |tokens| == PayloadSize(p);
    assert out == Layout(Leb(PACKET_ID_LOGIN), Leb(PayloadSize(p) % 0x1_0000_0000), p);
    return Ok(out);
  }

  // ---------- exactly the grammar ----------

  lemma VarWordIs(data: Bytes, off: nat, h: Bytes, v: nat)
    requires off + |h| <= |data| && data[off..off + |h|] == h && Word(h, v)
    ensures VarWord(data, off) == Ok((v, off + |h|))
  {
    hide VarintAt, Value, ReadVar, Pow2;
    VarintMoved(data, off, h);
    ReadsAt(data, off, |h|, 5, 32);
    Word32();
  }

  lemma VarWordReads(data: Bytes, off: nat)
    requires VarWord(data, off).Ok?
    ensures var (v, o) := VarWord(data, off).value;
            off < o <= |data| && Word(data[off..o], v)
  {
    hide Value, Pow2;
    ReadExactly(data, off, 5, 32);
    Word32();
  }

  lemma BigWordIs(data: Bytes, off: nat, v: u32)
    requires off + 4 <= |data|
    ensures BigWord(data, off) == Ok((v, off + 4)) <==> data[off..off + 4] == BytesBE(v, 4)
  {
    Word32();
    BytesOfValueBE(data[off..off + 4]);
    ValueOfBytesBE(v, 4);
  }

  lemma ReadStrIs(data: Bytes, off: nat, s: Bytes, rest: Bytes)
    requires off <= |data| && |s| < 0x1_0000_0000 && data[off..] == Str(s) + rest
    ensures ReadStr(data, off) == Ok((s, off + |Str(s)|)) && data[off + |Str(s)|..] == rest
  {
    hide BytesLE, ValueLE;
    Front(data, off, Str(s), rest);
    Word32();
    ValueOfBytesLE(|s|, 4);
    var d := data[off..off + |Str(s)|];
    assert data[off..off + 4] == d[..4] == BytesLE(|s|, 4);
    assert data[off + 4..off + 4 + |s|] == d[4..] == s;
  }

  lemma ReadStrReads(data: Bytes, off: nat)
    requires ReadStr(data, off).Ok?
    ensures var (s, o) := ReadStr(data, off).value;
            && off + 4 <= o <= |data| && o == off + |Str(s)| && |s| < 0x1_0000_0000
            && data[off..o] == Str(s)
  {
    hide BytesLE, ValueLE;
    var (s, o) := ReadStr(data, off).value;
    BytesOfValueLE(data[off..off + 4]);
    BoundLE(data[off..off + 4]);
    Word32();
    assert data[off..o] == data[off..off + 4] + data[off + 4..o];
  }

  lemma StringsIs(data: Bytes, off: nat, end: nat, p: Login)
    requires |p.identity| < 0x1_0000_0000 && |p.client| < 0x1_0000_0000
    requires off <= |data| && data[off..] == Str(p.identity) + Str(p.client)
    ensures Strings(data, off, end, p.protocolVersion) ==
            if end == |data| then Ok(p) else Err(PayloadTrailing)
    ensures |data| == off + PayloadSize(p)
  {
    hide ReadStr, Str;
    StrLength(p);
    ReadStrIs(data, off, p.identity, Str(p.client));
    var o := off + |Str(p.identity)|;
    assert data[o..] == Str(p.client) + [];
    ReadStrIs(data, o, p.client, []);
    assert p == Login(p.protocolVersion, p.identity, p.client);
  }

  lemma StrLength(p: Login)
    ensures |Str(p.identity)| == 4 + |p.identity| && |Str(p.client)| == 4 + |p.client|
  {
  }

  lemma PayloadIs(data: Bytes, off: nat, g: Bytes, v: nat, p: Login)
    requires |p.identity| < 0x1_0000_0000 && |p.client| < 0x1_0000_0000
    requires Word(g, v) && v % 0x1_0000_0000 == PayloadSize(p) % 0x1_0000_0000
    requires off <= |data| && data[off..] == g + (Str(p.identity) + Str(p.client))
    ensures Payload(data, off, p.protocolVersion) == if v == PayloadSize(p) then Ok(p) else Err(PayloadTrailing)
  {
    hide Strings, Str, Word, VarWord;
    Front(data, off, g, Str(p.identity) + Str(p.client));
    VarWordIs(data, off, g, v);
    StringsIs(data, off + |g|, off + |g| + v, p);
    WordSmall(g, v);
    assert v <= PayloadSize(p);
  }

  lemma WordSmall(g: Bytes, v: nat)
    requires Word(g, v)
    ensures v < 0x1_0000_0000
  {
  }

  /** A packet laid out with header h and length prefix g decodes to its contents exactly when the
      prefix is the payload's true size; a wrapped size is reported as trailing bytes. */
  lemma LayoutDecodes(h: Bytes, g: Bytes, header: u32, v: nat, p: Login)
    requires |p.identity| < 0x1_0000_0000 && |p.client| < 0x1_0000_0000
    requires Word(h, header) && header % 0x400 == PACKET_ID_LOGIN
    requires Word(g, v) && v % 0x1_0000_0000 == PayloadSize(p) % 0x1_0000_0000
    ensures Decoded(Layout(h, g, p)) == if v == PayloadSize(p) then Ok(p) else Err(PayloadTrailing)
  {
    hide Payload, Str, Word, VarWord, BigWord, BytesBE;
    var data, word := Layout(h, g, p), BytesBE(p.protocolVersion, 4);
    var rest := g + (Str(p.identity) + Str(p.client));
    assert data[0..] == data;
    Front(data, 0, h, word + rest);
    VarWordIs(data, 0, h, header);
    Front(data, |h|, word, rest);
    BigWordIs(data, |h|, p.protocolVersion);
    PayloadIs(data, |h| + 4, g, v, p);
  }

  lemma PayloadReads(data: Bytes, off: nat, version: u32)
    requires off <= |data| && Payload(data, off, version).Ok?
    ensures var p := Payload(data, off, version).value;
            && p.protocolVersion == version
            && exists g: Bytes :: Word(g, PayloadSize(p)) && data[off..] == g + (Str(p.identity) + Str(p.client))
  {
    hide VarWord, ReadStr, Str, Word;
    var (len, o) := VarWord(data, off).value;
    VarWordReads(data, off);
    ReadStrReads(data, o);
    var (identity, a) := ReadStr(data, o).value;
    ReadStrReads(data, a);
    var (client, b) := ReadStr(data, a).value;
    CutAt(data, off, o);
    CutAt(data, o, a);
    assert data[a..b] == data[a..];
    assert Word(data[off..o], len);
  }

  /** decode accepts exactly the grammar: what it returns is the packet's only reading. */
  lemma AcceptsExactly(data: Bytes, p: Login)
    ensures Decoded(data) == Ok(p) <==> exists h: Bytes, g: Bytes :: Grammar(data, h, g, p)
  {
    if Decoded(data) == Ok(p) {
      DecodedIsGrammar(data);
    }
    forall h: Bytes, g: Bytes | Grammar(data, h, g, p)
      ensures Decoded(data) == Ok(p)
    {
      hide Word, Decoded, Layout;
      WordSmall(g, PayloadSize(p));
      var v: u32 :| Word(h, v) && v % 0x400 == PACKET_ID_LOGIN;
      LayoutDecodes(h, g, v, PayloadSize(p), p);
    }
  }

  lemma DecodedIsGrammar(data: Bytes)
    requires Decoded(data).Ok?
    ensures exists h: Bytes, g: Bytes :: Grammar(data, h, g, Decoded(data).value)
  {
    hide VarWord, BigWord, Payload, Str, Word, BytesBE;
    var (header, o) := VarWord(data, 0).value;
    VarWordReads(data, 0);
    var (version, o') := BigWord(data, o).value;
    BigWordIs(data, o, version);
    PayloadReads(data, o', version);
    var p := Decoded(data).value;
    var g: Bytes :| Word(g, PayloadSize(p)) && data[o'..] == g + (Str(p.identity) + Str(p.client));
    CutAt(data, 0, o);
    CutAt(data, o, o');
    assert data[0..] == data;
    assert data == Layout(data[0..o], g, p);
    assert Word(data[0..o], header);
    assert Grammar(data, data[0..o], g, p);
  }

  /** decode undoes encode exactly when the payload's size fits its 32-bit prefix. */
  lemma RoundTripExactly(p: Login)
    requires Encoded(p).Ok?
    ensures Decoded(Encoded(p).value) == Ok(p) <==> 8 + |p.identity| + |p.client| < 0x1_0000_0000
  {
    hide Layout, Decoded, Word, Leb;
    var v := PayloadSize(p) % 0x1_0000_0000;
    LebWord(PACKET_ID_LOGIN);
    LebWord(v);
    LayoutDecodes(Leb(PACKET_ID_LOGIN), Leb(v), PACKET_ID_LOGIN, v, p);
  }

  lemma LebWord(v: u32)
    ensures Word(Leb(v), v)
  {
    hide Leb, Value, Pow2, VarintAt;
    LebIsVarint(v);
    Word32();
    Pow2Add(32, 3);
    assert Pow2(3) == 8 by { PowThree(); }
    LebLength(v, 5);
  }

  lemma PowThree()
    ensures Pow2(3) == 8
  {
  }

  // ---------- the bytes of a packet, and what becomes of damaged ones ----------

  /** encode makes these bytes, and refuses exactly strings above 32 bits. */
  lemma EncodedIs(p: Login)
    ensures Encoded(p) == Err(StringTooLarge) <==>
            |p.identity| >= 0x1_0000_0000 || |p.client| >= 0x1_0000_0000
    ensures Encoded(p).Ok? ==>
              var b, size := Encoded(p).value, 8 + |p.identity| + |p.client|;
              && |b| > 5 && b[0] == 0x01 && ValueBE(b[1..5]) == p.protocolVersion
              && b[5..] == Leb(size % 0x1_0000_0000) + (Str(p.identity) + Str(p.client))
  {
    hide BytesBE, ValueBE, Str;
    if Encoded(p).Ok? {
      var b, w := Encoded(p).value, BytesBE(p.protocolVersion, 4);
      OneByte();
      Word32();
      ValueOfBytesBE(p.protocolVersion, 4);
      var rest := Leb(PayloadSize(p) % 0x1_0000_0000) + (Str(p.identity) + Str(p.client));
      assert b[0..] == [0x01] + (w + rest);
      Front(b, 0, [0x01], w + rest);
      Front(b, 1, w, rest);
      LebIsVarint(PayloadSize(p) % 0x1_0000_0000);
    }
  }

  lemma OneByte()
    ensures Leb(PACKET_ID_LOGIN) == [0x01]
  {
  }

  /** A packet that is not a login, one that ends before its announced payload does, one whose strings
      do not fill the payload, and one that goes on behind it, each with its own error. */
  lemma Damaged(h: Bytes, header: u32, version: u32, g: Bytes, size: nat, rest: Bytes)
    requires Word(h, header) && Word(g, size)
    ensures var r := Decoded(h + (BytesBE(version, 4) + (g + rest)));
            && (header % 0x400 != 0x01 ==> r == Err(NotLogin))
            && (header % 0x400 == 0x01 && |rest| < size ==> r == Err(PayloadExceedsPacket))
            && (forall s, t, more | header % 0x400 == 0x01 && size <= |rest| && rest == Str(s) + (Str(t) + more)
                  && |s| < 0x1_0000_0000 && |t| < 0x1_0000_0000 ::
                  r == if size != 8 + |s| + |t| then Err(PayloadTrailing)
                       else if more != [] then Err(PacketTrailing)
                       else Ok(Login(version, s, t)))
  {
    hide Str, Word, VarWord, BigWord, BytesBE, Strings;
    var data, word := h + (BytesBE(version, 4) + (g + rest)), BytesBE(version, 4);
    assert data[0..] == data;
    Front(data, 0, h, word + (g + rest));
    VarWordIs(data, 0, h, header);
    Front(data, |h|, word, g + rest);
    BigWordIs(data, |h|, version);
    Front(data, |h| + 4, g, rest);
    VarWordIs(data, |h| + 4, g, size);
    var o := |h| + 4 + |g|;
    assert |data[o..]| == |data| - o;
    forall s, t, more | rest == Str(s) + (Str(t) + more) && |s| < 0x1_0000_0000 && |t| < 0x1_0000_0000
      ensures Strings(data, o, o + size, version) ==
              if size != 8 + |s| + |t| then Err(PayloadTrailing)
              else if more != [] then Err(PacketTrailing)
              else Ok(Login(version, s, t))
    {
      StringsAre(data, o, o + size, version, s, t, more);
    }
  }

  lemma StringsAre(data: Bytes, o: nat, end: nat, version: u32, s: Bytes, t: Bytes, more: Bytes)
    requires o <= |data| && data[o..] == Str(s) + (Str(t) + more)
    requires |s| < 0x1_0000_0000 && |t| < 0x1_0000_0000
    ensures Strings(data, o, end, version) ==
            if end != o + 8 + |s| + |t| then Err(PayloadTrailing)
            else if more != [] then Err(PacketTrailing)
            else Ok(Login(version, s, t))
  {
    hide ReadStr, Str;
    StrLength(Login(version, s, t));
    ReadStrIs(data, o, s, Str(t) + more);
    ReadStrIs(data, o + |Str(s)|, t, more);
  }

  /** A string that is cut off, before its length or behind it. */
  lemma StringCut(data: Bytes, off: nat)
    ensures ReadStr(data, off) == Err(WordOutOfRange) <==> |data| < off + 4
    ensures ReadStr(data, off) == Err(StringExceedsBuffer) <==>
            |data| >= off + 4 && |data| - off - 4 < ValueLE(data[off..off + 4])
  {
  }
}
