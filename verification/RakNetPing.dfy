/** The unconnected pong of src/RakNetPing.cpp: lossy text decoding, splitting into fields, and the
    header checks around them. */
module RakNetPing {
  import opened Wrappers
  import opened Bits
  import opened Words
  import opened Utf8
  import opened Splitting
  import opened Advertisement

  /** The look-ahead loop of nodeBufferToUtf8 emits what the byte-at-a-time decoder does. */
  method NodeBufferToUtf8(bytes: Bytes) returns (out: Bytes)
    ensures out == Lossy(bytes)
  {
    hide Lossy;
    out := [];
    var offset, length := 0, |bytes|;
    assert bytes[0..] == bytes;
    while offset < length
      invariant offset <= length
      invariant Lossy(bytes) == out + Lossy(bytes[offset..])
    {
      Advance(bytes, out, offset);
      var lead := bytes[offset];
      if lead <= 0x7F {
        out := out + [lead];
        offset := offset + 1;
        continue;
      }
      var sequenceLength, secondMinimum, secondMaximum := 0, 0x80, 0xBF;
      if 0xC2 <= lead <= 0xDF {
        sequenceLength := 2;
      } else if 0xE0 <= lead <= 0xEF {
        sequenceLength := 3;
        if lead == 0xE0 {
          secondMinimum := 0xA0;
        }
        if lead == 0xED {
          secondMaximum := 0x9F;
        }
      } else if 0xF0 <= lead <= 0xF4 {
        sequenceLength := 4;
        if lead == 0xF0 {
          secondMinimum := 0x90;
        }
        if lead == 0xF4 {
          secondMaximum := 0x8F;
        }
      } else {
        out := out + FFFD;
        offset := offset + 1;
        continue;
      }
      if offset + 1 >= length {
        out := out + FFFD;
        offset := length;
        break;
      }
      var second := bytes[offset + 1];
      if second < secondMinimum || second > secondMaximum {
        out := out + FFFD;
        offset := offset + 1;
        continue;
      }
      var continuation := CountContinuation(bytes, offset, sequenceLength);
      if continuation != sequenceLength {
        out := out + FFFD;
        if offset + continuation >= length {
          offset := length;
          break;
        }
        offset := offset + continuation;
        continue;
      }
      out := out + bytes[offset..offset + sequenceLength];
      offset := offset + sequenceLength;
    }
    assert bytes[length..] == [];
    LossyNothing();
  }

  /** The inner loop: how many bytes of the announced sequence are there. */
  method CountContinuation(bytes: Bytes, offset: nat, sequenceLength: nat) returns (continuation: nat)
    requires offset + 1 < |bytes| && Second(bytes[offset], bytes[offset + 1])
    requires LeadLength(bytes[offset]) == sequenceLength >= 2
    ensures continuation == MatchedAt(bytes, offset)
  {
    continuation := 2;
    while continuation < sequenceLength && offset + continuation < |bytes| && Tail(bytes[offset + continuation])
      invariant 2 <= continuation <= sequenceLength && offset + continuation <= |bytes|
      invariant forall x | offset + 2 <= x < offset + continuation :: Tail(bytes[x])
    {
      continuation := continuation + 1;
    }
    assert forall k | 0 <= k < |bytes| - offset :: bytes[offset..][k] == bytes[offset + k];
  }

  function MatchedAt(bytes: Bytes, offset: nat): (m: nat)
    requires offset < |bytes|
    ensures 1 <= m <= |bytes| - offset
    ensures bytes[offset] <= 0x7F || LeadLength(bytes[offset]) == 0 ==> m == 1
    ensures offset + 1 == |bytes| ==> m == 1
    ensures offset + 1 < |bytes| && !Second(bytes[offset], bytes[offset + 1]) ==> m == 1
  {
    Matched(bytes[offset..])
  }

  lemma Advance(bytes: Bytes, out: Bytes, offset: nat)
    requires offset < |bytes| && Lossy(bytes) == out + Lossy(bytes[offset..])
    ensures var m := MatchedAt(bytes, offset);
            Lossy(bytes) ==
            out + (if m == LeadLength(bytes[offset]) then bytes[offset..offset + m] else FFFD)
            + Lossy(bytes[offset + m..])
  {
    hide Lossy, Matched;
    var rest, m := bytes[offset..], MatchedAt(bytes, offset);
    LossyUnit(rest);
    assert rest[m..] == bytes[offset + m..] && rest[..m] == bytes[offset..offset + m];
  }

  // ---------- splitting ----------

  method SplitSemi(s: Bytes) returns (parts: seq<Bytes>)
    ensures parts == Split(s, SEMI)
  {
    parts := SplitLoop(s, SEMI);
  }

  function MapLossy(parts: seq<Bytes>): (r: seq<Bytes>)
    ensures |r| == |parts| && forall i | 0 <= i < |parts| :: r[i] == Lossy(parts[i])
  {
    seq(|parts|, i requires 0 <= i < |parts| => Lossy(parts[i]))
  }

  /** Decoding and splitting commute: a separator that cuts a multi-byte sequence short is still a
      separator, and a malformed field damages no other field. */
  lemma {:induction false} SplitLossy(s: Bytes)
    ensures Split(Lossy(s), SEMI) == MapLossy(Split(s, SEMI))
    decreases |s|
  {
    hide Lossy, SplitFrom;
    var i := FirstSep(s, SEMI);
    if i == |s| {
      assert s[..i] == s;
      LossyAddsNoAscii(s, SEMI);
      SplitOne(s, SEMI);
      SplitOne(Lossy(s), SEMI);
    } else {
      var a, b := s[..i], s[i + 1..];
      assert s == a + [SEMI] + b;
      LossyAround(a, SEMI, b);
      LossyAddsNoAscii(a, SEMI);
      SplitMore(a, b, SEMI);
      SplitMore(Lossy(a), Lossy(b), SEMI);
      SplitLossy(b);
      assert MapLossy([a] + Split(b, SEMI)) == [Lossy(a)] + MapLossy(Split(b, SEMI));
    }
  }

  // ---------- numbers in fields ----------

  predicate Space(b: byte) {
    b == 0x20 || 0x09 <= b <= 0x0D
  }

  predicate Digit(b: byte) {
    0x30 <= b <= 0x39
  }

  function SkipSpace(s: Bytes): Bytes {
    if s != [] && Space(s[0]) then SkipSpace(s[1..]) else s
  }

  /** The value of the leading digits, None when there is none. */
  function LeadingNumber(s: Bytes, soFar: Option<nat>): Option<nat>
    decreases |s|
  {
    if s != [] && Digit(s[0]) then
      LeadingNumber(s[1..], Some((if soFar.None? then 0 else soFar.value) * 10 + (s[0] - 0x30)))
    else soFar
  }

  /** toIntSafe: std::stoi on the front of the text, -1 where it throws. */
  function ToIntSafe(s: Bytes): int {
    var t := SkipSpace(s);
    var negative := t != [] && t[0] == 0x2D;
    var digits := if t != [] && (t[0] == 0x2D || t[0] == 0x2B) then t[1..] else t;
    var n := LeadingNumber(digits, None);
    if n.None? then -1
    else
      var v: int := if negative then 0 - n.value else n.value;
      if -0x8000_0000 <= v <= 0x7FFF_FFFF then v else -1
  }

  // ---------- the two readings of a numeric field ----------

  /** The int a number of the advertisement would be, -1 where it is none or out of range. */
  function AsInt(n: Scalar): int {
    if !n.Number? then -1
    else
      var v: int := if n.negative then 0 - n.magnitude else n.magnitude;
      if -0x8000_0000 <= v <= 0x7FFF_FFFF then v else -1
  }

  lemma {:induction false} SkippedTrimmed(s: Bytes)
    ensures Trimmed(s) == Trimmed(SkipSpace(s))
    decreases |s|
  {
    if s != [] && Space(s[0]) {
      assert SpaceLength(s) == 1;
      SkippedTrimmed(s[1..]);
    }
  }

  /** The digits read so far and those still to come make the whole numeral. */
  lemma {:induction false} LeadingFrom(u: Bytes, k: nat)
    requires k <= DigitCount(u, 10)
    ensures AllDigits(u[..k], 10)
    ensures LeadingNumber(u[k..], if k == 0 then None else Some(NumeralValue(u[..k], 10))) ==
            var n := DigitCount(u, 10); if n == 0 then None else Some(NumeralValue(u[..n], 10))
    decreases DigitCount(u, 10) - k
  {
    hide DigitCount, DigitValue, NumeralValue, LeadingNumber;
    var n := DigitCount(u, 10);
    assert forall i | 0 <= i < k :: u[..k][i] == u[..n][i];
    if k < n {
      LeadingFrom(u, k + 1);
      assert IsDigitOf(u[..n][k], 10);
      LeadingStep(u, k);
    } else {
      LeadingEnd(u, k);
    }
  }

  lemma LeadingStep(u: Bytes, k: nat)
    requires k < |u| && AllDigits(u[..k + 1], 10) && AllDigits(u[..k], 10) && IsDigitOf(u[k], 10)
    ensures LeadingNumber(u[k..], if k == 0 then None else Some(NumeralValue(u[..k], 10))) ==
            LeadingNumber(u[k + 1..], Some(NumeralValue(u[..k + 1], 10)))
  {
    assert u[..k + 1][..k] == u[..k] && u[k..][1..] == u[k + 1..];
  }

  lemma LeadingEnd(u: Bytes, k: nat)
    requires k == DigitCount(u, 10)
    ensures forall r :: LeadingNumber(u[k..], r) == r
  {
    hide DigitCount;
  }

  lemma SkippedFront(s: Bytes)
    ensures var t := SkipSpace(s); t != [] ==> !Space(t[0])
  {
  }

  /** The front that std::stoi skips: as many of the six white-space characters of ASCII as there are. */
  lemma {:induction false} SkippedIs(s: Bytes)
    ensures var t := SkipSpace(s);
            && |t| <= |s| && t == s[|s| - |t|..]
            && (forall i | 0 <= i < |s| - |t| :: s[i] in {0x09, 0x0A, 0x0B, 0x0C, 0x0D, 0x20})
            && (t != [] ==> t[0] !in {0x09, 0x0A, 0x0B, 0x0C, 0x0D, 0x20})
    decreases |s|
  {
    if s != [] && Space(s[0]) {
      SkippedIs(s[1..]);
    }
  }

  /** toIntSafe and the advertisement read the same number from a field, except behind white space
      that is not ASCII, where toIntSafe finds nothing, and in a hexadecimal numeral, where it finds 0. */
  lemma ReadingsAgree(s: Bytes)
    ensures ToIntSafe(s) == if SpaceLength(SkipSpace(s)) > 0 then -1
                            else if HexFront(Unsigned(SkipSpace(s))) then 0
                            else AsInt(IntOf(s))
  {
    hide DigitCount, NumeralValue, LeadingNumber;
    var t := SkipSpace(s);
    var u := Unsigned(t);
    SkippedFront(s);
    SkippedTrimmed(s);
    if SpaceLength(t) > 0 {
      NoLeadingNumber(t);
    } else if HexFront(u) {
      ZeroLeads(u);
    } else {
      LeadingFrom(u, 0);
      assert u[0..] == u;
    }
  }

  lemma NoLeadingNumber(t: Bytes)
    requires SpaceLength(t) > 0 && !Space(t[0])
    ensures t[0] != 0x2D && t[0] != 0x2B && LeadingNumber(t, None) == None
  {
  }

  lemma ZeroLeads(u: Bytes)
    requires HexFront(u)
    ensures LeadingNumber(u, None) == Some(0)
  {
  }

  // ---------- the pong ----------

  const MAGIC: Bytes := [0x00, 0xFF, 0xFF, 0x00, 0xFE, 0xFE, 0xFE, 0xFE, 0xFD, 0xFD, 0xFD, 0xFD, 0x12, 0x34, 0x56, 0x78]
  const HEADER_SIZE: nat := 1 + 8 + 8 + 16
  const MAX_OFFLINE_DATA_LENGTH: nat := 400

  datatype PongInfo = PongInfo(
    ok: bool, pingTime: int, serverGuid: nat, rawMotd: Bytes,
    edition: Bytes, motd: Bytes, protocolVersion: int, gameVersion: Bytes, onlinePlayers: int, maxPlayers: int,
    serverId: Bytes, subMotd: Bytes, gameMode: Bytes, gameModeNumeric: int, ipv4Port: int, ipv6Port: int,
    advertisement: Option<Fields>)

  const NO_PONG := PongInfo(false, 0, 0, [], [], [], -1, [], -1, -1, [], [], [], -1, -1, -1, None)

  /** The word at the cursor and the cursor behind it; None where the original throws. */
  method ReadU64BE(data: Bytes, off: nat) returns (r: Option<(u64, nat)>)
    ensures r.None? <==> |data| < off + 8
    ensures r.Some? ==> r.value == (ValueBE(data[off..off + 8]), off + 8)
  {
    if off + 8 > |data| {
      return None;
    }
    Word64();
    var v := ReadBE(data, off, 8);
    return Some((v, off + 8));
  }

  method CheckMagic(data: Bytes, off: nat) returns (b: bool)
    ensures b <==> off + 16 <= |data| && data[off..off + 16] == MAGIC
  {
    if off + 16 > |data| {
      return false;
    }
    for i := 0 to 16
      invariant forall k | 0 <= k < i :: data[off + k] == MAGIC[k]
    {
      if data[off + i] != MAGIC[i] {
        assert data[off..off + 16][i] != MAGIC[i];
        return false;
      }
    }
    return true;
  }

  /** static_cast<int64_t> of a 64-bit word. */
  function Signed64(v: u64): int {
    if v < 0x8000_0000_0000_0000 then v else v - 0x1_0000_0000_0000_0000
  }

  function FieldOr(parts: seq<Bytes>, i: nat): Bytes {
    if i < |parts| then parts[i] else []
  }

  function NumberOr(parts: seq<Bytes>, i: nat): int {
    if i < |parts| then ToIntSafe(parts[i]) else -1
  }

  /** A text field is its part, empty where there are fewer parts; a number field what stoi makes of its
      part, -1 where there are fewer. */
  ghost predicate TextIs(v: Bytes, parts: seq<Bytes>, i: nat) {
    if i < |parts| then v == parts[i] else v == []
  }

  ghost predicate NumberIs(v: int, parts: seq<Bytes>, i: nat) {
    if i < |parts| then v == ToIntSafe(parts[i]) else v == -1
  }

  /** The signed number with the same 64 bits. */
  ghost predicate SameBits(v: int, u: nat) {
    -0x8000_0000_0000_0000 <= v < 0x8000_0000_0000_0000 && (v == u || v == u - 0x1_0000_0000_0000_0000)
  }

  /** The pong is reported exactly when its header is intact and its payload neither empty nor too
      long; then every field is the decoded form of its own raw bytes alone. What is not reported
      leaves all fields but the two of a header of full length at their defaults. */
  method ParseUnconnectedPong(data: Bytes) returns (info: PongInfo)
    ensures info.ok <==> 34 <= |data| <= 432 && data[0] == 0x1C && data[17..33] == MAGIC
    ensures if |data| >= 33 && data[0] == 0x1C then
              SameBits(info.pingTime, ValueBE(data[1..9])) && info.serverGuid == ValueBE(data[9..17])
            else info.pingTime == 0 && info.serverGuid == 0
    ensures info.ok ==>
              && info.rawMotd == Lossy(data[33..])
              && info.advertisement == Some(FieldsOf(info.rawMotd))
    ensures !info.ok ==> info.rawMotd == [] && info.advertisement.None?
    ensures var parts := if info.ok then MapLossy(Split(data[33..], SEMI)) else [];
            && TextIs(info.edition, parts, 0) && TextIs(info.motd, parts, 1)
            && NumberIs(info.protocolVersion, parts, 2) && TextIs(info.gameVersion, parts, 3)
            && NumberIs(info.onlinePlayers, parts, 4) && NumberIs(info.maxPlayers, parts, 5)
            && TextIs(info.serverId, parts, 6) && TextIs(info.subMotd, parts, 7)
            && TextIs(info.gameMode, parts, 8) && NumberIs(info.gameModeNumeric, parts, 9)
            && NumberIs(info.ipv4Port, parts, 10) && NumberIs(info.ipv6Port, parts, 11)
  {
    hide Lossy, SplitFrom, ToIntSafe, ValueBE, MapLossy, FieldsOf;
    info := NO_PONG;
    if |data| < HEADER_SIZE {
      return;
    }
    if data[0] != 0x1C {
      return;
    }
    var off := 1;
    var pingTime := ReadU64BE(data, off);
    off := pingTime.value.1;
    var guid := ReadU64BE(data, off);
    off := guid.value.1;
    info := info.(pingTime := Signed64(pingTime.value.0), serverGuid := guid.value.0);
    var magic := CheckMagic(data, off);
    if !magic {
      return;
    }
    off := off + 16;
    var payloadLength := |data| - off;
    if payloadLength == 0 || payloadLength >= MAX_OFFLINE_DATA_LENGTH {
      return;
    }
    var rawMotd := NodeBufferToUtf8(data[off..]);
    var advertisement := FromServerName(rawMotd);
    var parts := SplitSemi(rawMotd);
    SplitLossy(data[off..]);
    info := info.(
      ok := true, rawMotd := rawMotd, advertisement := Some(advertisement),
      edition := FieldOr(parts, 0), motd := FieldOr(parts, 1), protocolVersion := NumberOr(parts, 2),
      gameVersion := FieldOr(parts, 3), onlinePlayers := NumberOr(parts, 4), maxPlayers := NumberOr(parts, 5),
      serverId := FieldOr(parts, 6), subMotd := FieldOr(parts, 7), gameMode := FieldOr(parts, 8),
      gameModeNumeric := NumberOr(parts, 9), ipv4Port := NumberOr(parts, 10), ipv6Port := NumberOr(parts, 11));
  }
}
