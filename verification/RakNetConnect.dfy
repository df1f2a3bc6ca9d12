/** The RakNet open handshake of src/RakNetConnect.cpp against an arbitrary network. IPv4 addresses
    are their four octets. */
module RakNetConnect {
  import opened Wrappers
  import opened Bits
  import opened Words
  import RakNetPing

  type Bytes = seq<byte>

  const REQUEST_1: byte := 0x05
  const REPLY_1: byte := 0x06
  const REQUEST_2: byte := 0x07
  const REPLY_2: byte := 0x08
  const PROTOCOL_VERSION: byte := 11
  const UDP_IPV4_HEADER_SIZE := 28

  // ---------- the MTU candidates ----------

  predicate UsableMtu(v: int) {
    576 <= v <= 1492
  }

  function AddMtu(list: seq<int>, v: int): seq<int> {
    if UsableMtu(v) && v !in list then list + [v] else list
  }

  /** 1492, 1400, 1300, ..., 700, 576 */
  function DefaultMtu(i: nat): int {
    if i == 0 then 1492 else if i < 9 then 1500 - 100 * i else 576
  }

  /** The list after the requested MTU and the first n defaults were added. */
  function AddedMtus(requested: int, n: nat): seq<int> {
    if n == 0 then AddMtu([], requested) else AddMtu(AddedMtus(requested, n - 1), DefaultMtu(n - 1))
  }

  function TryList(requested: int): seq<int> {
    AddedMtus(requested, 10)
  }

  ghost predicate Distinct(list: seq<int>) {
    forall i, j | 0 <= i < j < |list| :: list[i] != list[j]
  }

  /** No candidate occurs twice, all are usable, a usable request comes first, and no default is
      left out. */
  lemma {:induction false} AddedMtusAre(requested: int, n: nat)
    requires n <= 10
    ensures var list := AddedMtus(requested, n);
            && Distinct(list) && (forall v | v in list :: UsableMtu(v))
            && (UsableMtu(requested) ==> list != [] && list[0] == requested)
            && (forall i | 0 <= i < n :: DefaultMtu(i) in list)
            && (forall v | v in list :: v == requested || exists i | 0 <= i < n :: v == DefaultMtu(i))
  {
    if n > 0 {
      AddedMtusAre(requested, n - 1);
      assert AddedMtus(requested, n - 1) <= AddedMtus(requested, n);
    }
  }

  method BuildMtuTryList(requestedMtu: int) returns (list: seq<int>)
    ensures list == TryList(requestedMtu)
  {
    list := AddMtu([], requestedMtu);
    assert list == AddedMtus(requestedMtu, 0);
    for i := 0 to 10
      invariant list == AddedMtus(requestedMtu, i)
    {
      list := AddMtu(list, DefaultMtu(i));
    }
  }

  // ---------- addresses ----------

  datatype Ip = Ip(a: byte, b: byte, c: byte, d: byte)

  /** ~b on a byte */
  function Not(b: byte): byte {
    0xFF - b
  }

  lemma NotFlips(b: byte)
    ensures Xor(b, 0xFF) == Not(b) && Not(Not(b)) == b
  {
    XorOnes(b, 8);
    Powers();
  }

  lemma {:induction false} XorOnes(b: nat, k: nat)
    requires b < Pow2(k)
    ensures Xor(b, Pow2(k) - 1) == Pow2(k) - 1 - b
  {
    if k > 0 {
      XorOnes(b / 2, k - 1);
      XorUnfold(b, Pow2(k) - 1);
      assert (Pow2(k) - 1) / 2 == Pow2(k - 1) - 1 && (Pow2(k) - 1) % 2 == 1;
    }
  }

  function Address(ip: Ip, port: u16): (r: Bytes)
    ensures |r| == 7
  {
    [4, Not(ip.a), Not(ip.b), Not(ip.c), Not(ip.d)] + BytesBE(port, 2)
  }

  datatype Thrown = OutOfRange | BadAddressVersion | SendFailed | MtuTooSmall

  function ReadAddress(data: Bytes, off: nat): (r: Result<(Ip, u16), Thrown>) {
    if off + 7 > |data| then Err(OutOfRange)
    else if data[off] != 4 then Err(BadAddressVersion)
    else
      Small16(data[off + 5..off + 7]);
      var ip := Ip(Not(data[off + 1]), Not(data[off + 2]), Not(data[off + 3]), Not(data[off + 4]));
      Ok((ip, ValueBE(data[off + 5..off + 7])))
  }

  lemma Small16(bs: Bytes)
    requires |bs| == 2
    ensures ValueBE(bs) < 0x1_0000
  {
    BoundBE(bs);
    Powers();
  }

  /** Reading an address accepts exactly the seven bytes that writing one gives. */
  lemma AddressExactly(data: Bytes, off: nat, ip: Ip, port: u16)
    ensures ReadAddress(data, off) == Ok((ip, port)) <==>
            off + 7 <= |data| && data[off..off + 7] == Address(ip, port)
  {
    if off + 7 <= |data| {
      var d := data[off..off + 7];
      var w := data[off + 5..off + 7];
      assert w == d[5..7];
      BytesOfValueBE(w);
      Powers();
      ValueOfBytesBE(port, 2);
      var e := Address(ip, port);
      assert e[5..7] == BytesBE(port, 2);
      assert d == [d[0], d[1], d[2], d[3], d[4]] + d[5..7];
    }
  }

  // ---------- requests ----------

  function Zeros(n: nat): (r: Bytes)
    ensures |r| == n && forall i | 0 <= i < n :: r[i] == 0
  {
    seq(n, i => 0)
  }

  function Request1(mtu: int): (r: Bytes)
    requires UDP_IPV4_HEADER_SIZE + 18 <= mtu
    ensures |r| == mtu - UDP_IPV4_HEADER_SIZE
  {
    [REQUEST_1] + RakNetPing.MAGIC + [PROTOCOL_VERSION] + Zeros(mtu - UDP_IPV4_HEADER_SIZE - 18)
  }

  function Request2(ip: Ip, port: u16, mtu: u16, clientGuid: u64, cookie: Option<u32>): Bytes {
    [REQUEST_2] + RakNetPing.MAGIC + (if cookie.Some? then BytesBE(cookie.value, 4) + [0] else [])
    + Address(ip, port) + BytesBE(mtu, 2) + BytesBE(clientGuid, 8)
  }

  /** The MTU a receiver finds in a Request2: the word before the client's guid. */
  function MtuField(request: Bytes): nat
    requires |request| >= 10
  {
    ValueBE(request[|request| - 10..|request| - 8])
  }

  lemma Request2Carries(ip: Ip, port: u16, mtu: u16, clientGuid: u64, cookie: Option<u32>)
    ensures var r := Request2(ip, port, mtu, clientGuid, cookie);
            |r| >= 34 && r[0] == REQUEST_2 && MtuField(r) == mtu
  {
    var r := Request2(ip, port, mtu, clientGuid, cookie);
    assert r[|r| - 10..|r| - 8] == BytesBE(mtu, 2);
    Powers();
    ValueOfBytesBE(mtu, 2);
  }

  method BuildOpenConnectionRequest1(mtu: int) returns (r: Result<Bytes, Thrown>)
    ensures r == if mtu < UDP_IPV4_HEADER_SIZE + 18 then Err(MtuTooSmall) else Ok(Request1(mtu))
  {
    var out := [REQUEST_1];
    out := out + RakNetPing.MAGIC;
    out := out + [PROTOCOL_VERSION];
    var payloadSize := mtu - UDP_IPV4_HEADER_SIZE;
    if payloadSize < |out| {
      return Err(MtuTooSmall);
    }
    out := out + Zeros(payloadSize - |out|);
    return Ok(out);
  }

  /** The MTU is cast to sixteen bits. */
  method BuildOpenConnectionRequest2(serverIp: Ip, serverPort: u16, mtu: int, clientGuid: u64,
                                     serverSecurity: bool, securityCookie: u32)
    returns (out: Bytes)
    ensures var cookie := if serverSecurity then Some(securityCookie) else None;
            out == Request2(serverIp, serverPort, mtu % 0x1_0000, clientGuid, cookie)
  {
    out := [REQUEST_2];
    out := out + RakNetPing.MAGIC;
    if serverSecurity {
      out := WriteBE(out, securityCookie, 4);
      out := out + [0x00];
    }
    out := out + [4, Not(serverIp.a), Not(serverIp.b), Not(serverIp.c), Not(serverIp.d)];
    out := WriteBE(out, serverPort, 2);
    out := WriteBE(out, mtu % 0x1_0000, 2);
    out := WriteBE(out, clientGuid, 8);
  }

  // ---------- replies ----------

  datatype ConnectError =
    | ResolveFailed | EmptyResolution | SocketFailed
    | Timeout1 | TooSmall1 | UnexpectedId1 | BadMagic1
    | Timeout2 | TooSmall2 | UnexpectedId2 | BadMagic2
    | Exception(thrown: Thrown)

  datatype Reply1 = Reply1(guid: u64, cookie: Option<u32>, mtu: u16)
  datatype Reply2 = Reply2(guid: u64, ip: Ip, port: u16, mtu: u16, security: bool)

  /** A Reply1 on the wire: flag is the security byte, and anything may follow. */
  ghost predicate Layout1(data: Bytes, r: Reply1, flag: byte, tail: Bytes) {
    && (flag == 0 <==> r.cookie.None?)
    && data == [REPLY_1] + (RakNetPing.MAGIC + (BytesBE(r.guid, 8)
               + ([flag] + (CookieBytes(r.cookie) + (BytesBE(r.mtu, 2) + tail)))))
  }

  function CookieBytes(cookie: Option<u32>): Bytes {
    if cookie.Some? then BytesBE(cookie.value, 4) else []
  }

  ghost predicate Layout2(data: Bytes, r: Reply2, flag: byte, tail: Bytes) {
    && (flag != 0 <==> r.security)
    && data == [REPLY_2] + (RakNetPing.MAGIC + (BytesBE(r.guid, 8)
               + (Address(r.ip, r.port) + (BytesBE(r.mtu, 2) + ([flag] + tail)))))
  }

  /** What openConnection makes of the first answer. */
  function Parsed1(data: Bytes): Result<Reply1, ConnectError> {
    if |data| < 28 then Err(TooSmall1)
    else if data[0] != REPLY_1 then Err(UnexpectedId1)
    else if data[1..17] != RakNetPing.MAGIC then Err(BadMagic1)
    else if data[25] == 0 then Ok(Reply1(Word(data[17..25]), None, Word(data[26..28])))
    else if |data| < 32 then Err(Exception(OutOfRange))
    else Ok(Reply1(Word(data[17..25]), Some(Word(data[26..30])), Word(data[30..32])))
  }

  /** And of the answer to Request2. */
  function Parsed2(data: Bytes): Result<Reply2, ConnectError> {
    if |data| < 35 then Err(TooSmall2)
    else if data[0] != REPLY_2 then Err(UnexpectedId2)
    else if data[1..17] != RakNetPing.MAGIC then Err(BadMagic2)
    else
      match ReadAddress(data, 25)
      case Err(e) => Err(Exception(e))
      case Ok((ip, port)) => Ok(Reply2(Word(data[17..25]), ip, port, Word(data[32..34]), data[34] != 0))
  }

  /** A big-endian word of at most eight bytes. */
  function Word(bs: Bytes): (r: u64)
    requires |bs| <= 8
    ensures |bs| == 2 ==> r < 0x1_0000
    ensures |bs| == 4 ==> r < 0x1_0000_0000
  {
    BoundBE(bs);
    Pow2Mono(8 * |bs|, 64);
    Powers();
    ValueBE(bs)
  }

  // ---------- replies read by the code ----------

  method ReadWord(data: Bytes, off: nat, n: nat) returns (r: Result<u64, Thrown>)
    requires n <= 8
    ensures r == if off + n > |data| then Err(OutOfRange) else Ok(Word(data[off..off + n]))
  {
    if off + n > |data| {
      return Err(OutOfRange);
    }
    var v := ReadBE(data, off, n);
    Pow2Mono(8 * n, 64);
    Word64();
    return Ok(v);
  }

  // ---------- which replies are accepted ----------

  lemma WordExactly(bs: Bytes, v: u64)
    requires |bs| <= 8
    ensures Word(bs) == v ==> bs == BytesBE(v, |bs|)
    ensures bs == BytesBE(v, |bs|) && v < Pow2(8 * |bs|) ==> Word(bs) == v
  {
    BytesOfValueBE(bs);
    if v < Pow2(8 * |bs|) {
      ValueOfBytesBE(v, |bs|);
    }
  }

  /** A word at `off` and what follows it. */
  lemma WordAt(data: Bytes, off: nat, v: u64, n: nat, rest: Bytes)
    requires off <= |data| && n <= 8 && v < Pow2(8 * n) && data[off..] == BytesBE(v, n) + rest
    ensures off + n <= |data| && Word(data[off..off + n]) == v && data[off + n..] == rest
  {
    hide Word, BytesBE, Pow2;
    Front(data, off, BytesBE(v, n), rest);
    WordExactly(BytesBE(v, n), v);
  }

  /** The first seventeen bytes of a reply. */
  lemma Head(data: Bytes, id: byte, rest: Bytes)
    requires data == [id] + (RakNetPing.MAGIC + rest)
    ensures |data| >= 17 && data[0] == id && data[1..17] == RakNetPing.MAGIC && data[17..] == rest
  {
    assert data[0..] == data;
    Front(data, 0, [id], RakNetPing.MAGIC + rest);
    Front(data, 1, RakNetPing.MAGIC, rest);
  }

  lemma HeadBack(data: Bytes)
    requires |data| >= 17 && data[1..17] == RakNetPing.MAGIC
    ensures data == [data[0]] + (RakNetPing.MAGIC + data[17..])
  {
    CutAt(data, 1, 17);
  }

  /** The replies accepted as the first answer are exactly those of the wire layout. */
  lemma Parses1Exactly(data: Bytes, r: Reply1)
    ensures Parsed1(data) == Ok(r) <==> exists flag: byte, tail: Bytes :: Layout1(data, r, flag, tail)
  {
    if Parsed1(data) == Ok(r) {
      Parsed1Layout(data);
    }
    forall flag: byte, tail: Bytes | Layout1(data, r, flag, tail)
      ensures Parsed1(data) == Ok(r)
    {
      Layout1Parsed(data, r, flag, tail);
    }
  }

  lemma Parsed1Layout(data: Bytes)
    requires Parsed1(data).Ok?
    ensures exists flag: byte, tail: Bytes :: Layout1(data, Parsed1(data).value, flag, tail)
  {
    hide Word, BytesBE;
    var r := Parsed1(data).value;
    var o := if r.cookie.Some? then 30 else 26;
    HeadBack(data);
    WordExactly(data[17..25], r.guid);
    WordExactly(data[o..o + 2], r.mtu);
    if r.cookie.Some? {
      WordExactly(data[26..30], r.cookie.value);
    }
    CutAt(data, 17, 25);
    CutAt(data, 25, 26);
    CutAt(data, 26, o);
    CutAt(data, o, o + 2);
    assert data[25..26] == [data[25]] && data[26..o] == CookieBytes(r.cookie);
    assert Layout1(data, r, data[25], data[o + 2..]);
  }

  lemma WordSizes()
    ensures Pow2(8 * 2) == 0x1_0000 && Pow2(8 * 4) == 0x1_0000_0000 && Pow2(8 * 8) == 0x1_0000_0000_0000_0000
  {
    Powers();
  }

  lemma Layout1Parsed(data: Bytes, r: Reply1, flag: byte, tail: Bytes)
    requires Layout1(data, r, flag, tail)
    ensures Parsed1(data) == Ok(r)
  {
    hide Word, BytesBE, Pow2;
    WordSizes();
    var end := BytesBE(r.mtu, 2) + tail;
    var rest := [flag] + (CookieBytes(r.cookie) + end);
    Head(data, REPLY_1, BytesBE(r.guid, 8) + rest);
    WordAt(data, 17, r.guid, 8, rest);
    Front(data, 25, [flag], CookieBytes(r.cookie) + end);
    assert data[25] == data[25..26][0];
    if r.cookie.Some? {
      WordAt(data, 26, r.cookie.value, 4, end);
      WordAt(data, 30, r.mtu, 2, tail);
    } else {
      assert [] + end == end;
      WordAt(data, 26, r.mtu, 2, tail);
    }
  }

  lemma Parses2Exactly(data: Bytes, r: Reply2)
    ensures Parsed2(data) == Ok(r) <==> exists flag: byte, tail: Bytes :: Layout2(data, r, flag, tail)
  {
    hide Parsed2, Layout2;
    if Parsed2(data) == Ok(r) {
      Parsed2Layout(data);
    }
    forall flag: byte, tail: Bytes | Layout2(data, r, flag, tail)
      ensures Parsed2(data) == Ok(r)
    {
      Layout2Parsed(data, r, flag, tail);
    }
  }

  lemma Parsed2Layout(data: Bytes)
    requires Parsed2(data).Ok?
    ensures exists flag: byte, tail: Bytes :: Layout2(data, Parsed2(data).value, flag, tail)
  {
    hide Word, BytesBE, Address, ReadAddress;
    var r := Parsed2(data).value;
    HeadBack(data);
    WordExactly(data[17..25], r.guid);
    AddressExactly(data, 25, r.ip, r.port);
    WordExactly(data[32..34], r.mtu);
    CutAt(data, 17, 25);
    CutAt(data, 25, 32);
    CutAt(data, 32, 34);
    CutAt(data, 34, 35);
    assert data[34..35] == [data[34]];
    assert Layout2(data, r, data[34], data[35..]);
  }

  lemma Layout2Parsed(data: Bytes, r: Reply2, flag: byte, tail: Bytes)
    requires Layout2(data, r, flag, tail)
    ensures Parsed2(data) == Ok(r)
  {
    hide Word, BytesBE, Pow2, Address, ReadAddress;
    WordSizes();
    var last := [flag] + tail;
    var rest := Address(r.ip, r.port) + (BytesBE(r.mtu, 2) + last);
    Head(data, REPLY_2, BytesBE(r.guid, 8) + rest);
    WordAt(data, 17, r.guid, 8, rest);
    Front(data, 25, Address(r.ip, r.port), BytesBE(r.mtu, 2) + last);
    AddressExactly(data, 25, r.ip, r.port);
    WordAt(data, 32, r.mtu, 2, last);
    Front(data, 34, [flag], tail);
    assert data[34] == data[34..35][0];
  }
}
