/** Checksums, the encrypted session and the one-shot GCM payloads of src/BedrockEncryption.cpp, with
    the sending and receiving ends src/client/BedrockNetworkClient.cpp builds from them. */
module Encryption {
  import opened Wrappers
  import opened Bits
  import opened Words
  import opened Ciphers

  const HEADER: byte := 0xFE

  // ---------- checksums ----------

  /** nodeChecksumSliceBoundary */
  function Boundary(size: nat): (r: nat)
    ensures r <= size
  {
    if size >= 8 then size - 8 else if size > 4 then 2 * size - 8 else 0
  }

  /** The index JavaScript's slice(i) of a buffer of n bytes starts at. */
  function JsSliceIndex(n: nat, i: int): nat {
    if i < 0 then (if n + i < 0 then 0 else n + i)
    else if i > n then n else i
  }

  lemma BoundaryIsSlice(n: nat)
    ensures Boundary(n) == JsSliceIndex(n, n - 8)
  {
  }

  /** The first eight bytes of the hash of counter, packet and key. */
  function Checksum(c: Crypto, packet: seq<byte>, counter: u64, key: Key): (r: seq<byte>)
    ensures |r| == 8
  {
    c.sha256(BytesLE(counter, 8) + packet + key)[..8]
  }

  /** The text that is hashed: eight bytes that count, the packet, and the key. */
  ghost predicate Message(m: seq<byte>, packet: seq<byte>, counter: u64, key: Key) {
    && |m| == 40 + |packet|
    && ValueLE(m[..8]) == counter && m[8..|m| - 32] == packet && m[|m| - 32..] == key
  }

  /** There is one such text, and the checksum is the front of its hash. */
  lemma ChecksumHashes(c: Crypto, packet: seq<byte>, counter: u64, key: Key, m: seq<byte>)
    requires Message(m, packet, counter, key)
    ensures Checksum(c, packet, counter, key) == c.sha256(m)[..8]
  {
    MessageIs(packet, counter, key, m);
  }

  lemma MessageIs(packet: seq<byte>, counter: u64, key: Key, m: seq<byte>)
    requires Message(m, packet, counter, key)
    ensures m == BytesLE(counter, 8) + packet + key
  {
    BytesOfValueLE(m[..8]);
    assert m == m[..8] + m[8..|m| - 32] + m[|m| - 32..];
  }

  lemma MessageExists(packet: seq<byte>, counter: u64, key: Key)
    ensures Message(BytesLE(counter, 8) + packet + key, packet, counter, key)
  {
    Word64();
    ValueOfBytesLE(counter, 8);
    hide BytesLE, ValueLE;
    var m := BytesLE(counter, 8) + packet + key;
    assert m[..8] == BytesLE(counter, 8);
  }

  function MakePlain(c: Crypto, packet: seq<byte>, counter: u64, key: Key): seq<byte> {
    packet + Checksum(c, packet, counter, key)
  }

  datatype Verification = Verification(
    packetPlaintext: seq<byte>,
    receivedChecksum: seq<byte>,
    expectedChecksum: seq<byte>)

  predicate Matches(v: Verification) {
    v.receivedChecksum == v.expectedChecksum
  }

  function Verified(c: Crypto, plain: seq<byte>, counter: u64, key: Key): Verification {
    var b := Boundary(|plain|);
    Verification(plain[..b], plain[b..], Checksum(c, plain[..b], counter, key))
  }

  function Next(counter: u64): u64 {
    (counter + 1) % 0x1_0000_0000_0000_0000
  }

  /** A decrypted chunk matches exactly when it is what makeAesPlaintext makes of some packet, and
      that packet is the one reported. Chunks shorter than a checksum never match. */
  lemma MatchesExactly(c: Crypto, plain: seq<byte>, counter: u64, key: Key)
    ensures var v := Verified(c, plain, counter, key);
            Matches(v) <==> plain == MakePlain(c, v.packetPlaintext, counter, key)
    ensures forall p: seq<byte> :: plain == MakePlain(c, p, counter, key) ==>
              var v := Verified(c, plain, counter, key);
              v.packetPlaintext == p && Matches(v)
    ensures |plain| < 8 ==> !Matches(Verified(c, plain, counter, key))
  {
    hide Checksum;
    var v := Verified(c, plain, counter, key);
    var b := Boundary(|plain|);
    assert plain == plain[..b] + plain[b..];
    assert |v.expectedChecksum| == 8 && |v.receivedChecksum| == |plain| - b;
    forall p: seq<byte> | plain == MakePlain(c, p, counter, key)
      ensures v.packetPlaintext == p && Matches(v)
    {
      assert plain[..|p|] == p && plain[|p|..] == Checksum(c, p, counter, key);
    }
  }

  // ---------- the C++ routines ----------

  method ComputeChecksum(c: Crypto, packetPlaintext: seq<byte>, sendCounter: u64, secretKeyBytes: seq<byte>)
    returns (r: Result<seq<byte>, EncryptionError>)
    ensures r == if |secretKeyBytes| != 32 then Err(BadKeyLength)
                 else Ok(Checksum(c, packetPlaintext, sendCounter, secretKeyBytes))
    ensures |secretKeyBytes| == 32 ==>
              forall m | Message(m, packetPlaintext, sendCounter, secretKeyBytes) :: r == Ok(c.sha256(m)[..8])
  {
    if |secretKeyBytes| != 32 {
      return Err(BadKeyLength);
    }
    var hashed := WriteLE([], sendCounter, 8);
    assert hashed == BytesLE(sendCounter, 8);
    if |packetPlaintext| != 0 {
      hashed := hashed + packetPlaintext;
    }
    assert hashed == BytesLE(sendCounter, 8) + packetPlaintext;
    hashed := hashed + secretKeyBytes;
    var hash := c.sha256(hashed);
    forall m | Message(m, packetPlaintext, sendCounter, secretKeyBytes)
      ensures c.sha256(m) == hash
    {
      MessageIs(packetPlaintext, sendCounter, secretKeyBytes, m);
    }
    return Ok(hash[..8]);
  }

  method MakeAesPlaintext(c: Crypto, packetPlaintext: seq<byte>, sendCounter: u64, secretKeyBytes: seq<byte>)
    returns (r: Result<seq<byte>, EncryptionError>)
    ensures r == if |secretKeyBytes| != 32 then Err(BadKeyLength)
                 else Ok(MakePlain(c, packetPlaintext, sendCounter, secretKeyBytes))
  {
    var check := ComputeChecksum(c, packetPlaintext, sendCounter, secretKeyBytes);
    if check.Err? {
      return check;
    }
    var out := packetPlaintext;
    out := out + check.value;
    return Ok(out);
  }

  /** The counter is consumed once the checksum is computed, whether it matches or not. */
  method VerifyAesPlaintext(c: Crypto, aesPlaintext: seq<byte>, receiveCounter: u64, secretKeyBytes: seq<byte>)
    returns (r: Result<Verification, EncryptionError>, counter: u64)
    ensures if |secretKeyBytes| != 32 then r == Err(BadKeyLength) && counter == receiveCounter
            else r == Ok(Verified(c, aesPlaintext, receiveCounter, secretKeyBytes)) && counter == Next(receiveCounter)
  {
    counter := receiveCounter;
    var boundary := Boundary(|aesPlaintext|);
    var packet, received := aesPlaintext[..boundary], aesPlaintext[boundary..];
    var expected := ComputeChecksum(c, packet, receiveCounter, secretKeyBytes);
    if expected.Err? {
      return Err(expected.error), counter;
    }
    counter := (counter + 1) % 0x1_0000_0000_0000_0000;
    r := Ok(Verification(packet, received, expected.value));
  }

  /** An empty write leaves stream and counter alone. */
  method DecryptAndVerify(c: Crypto, stream: CipherStream, encrypted: seq<byte>, receiveCounter: u64,
                          secretKeyBytes: seq<byte>)
    returns (r: Result<Option<Verification>, EncryptionError>, counter: u64)
    modifies stream
    ensures stream.context == Update(c, stream.mode, old(stream.context), encrypted).1
    ensures if encrypted == [] then r == Ok(None) && counter == receiveCounter
            else if |secretKeyBytes| != 32 then r == Err(BadKeyLength) && counter == receiveCounter
            else
              var plain := Update(c, stream.mode, old(stream.context), encrypted).0;
              r == Ok(Some(Verified(c, plain, receiveCounter, secretKeyBytes))) && counter == Next(receiveCounter)
  {
    if |encrypted| == 0 {
      return Ok(None), receiveCounter;
    }
    var plain := stream.Process(c, encrypted);
    var v;
    v, counter := VerifyAesPlaintext(c, plain, receiveCounter, secretKeyBytes);
    r := if v.Ok? then Ok(Some(v.value)) else Err(v.error);
  }

  // ---------- the two ends of a session ----------

  /** What one direction of a session depends on: the cipher context and the counter. */
  datatype End = End(context: Context, counter: u64)

  function Send(c: Crypto, key: Key, e: End, packet: seq<byte>): (seq<byte>, End) {
    var (out, x) := Update(c, Encrypt, e.context, MakePlain(c, packet, e.counter, key));
    ([HEADER] + out, End(x, Next(e.counter)))
  }

  datatype Received = Packet(bytes: seq<byte>) | Nothing | Mismatch(v: Verification) | NoHeader

  function Receive(c: Crypto, key: Key, e: End, payload: seq<byte>): (Received, End) {
    if payload == [] then (Nothing, e)
    else if payload[0] != HEADER then (NoHeader, e)
    else if |payload| == 1 then (Nothing, e)
    else
      var (plain, x) := Update(c, Decrypt, e.context, payload[1..]);
      var v := Verified(c, plain, e.counter, key);
      (if Matches(v) then Packet(v.packetPlaintext) else Mismatch(v), End(x, Next(e.counter)))
  }

  /** The sending end: sendCounter_ and encryptStream_ of the client. */
  class Sender {
    const key: Key
    const stream: CipherStream
    var sendCounter: u64

    constructor (k: Key, s: CipherStream)
      ensures key == k && stream == s && sendCounter == 0
    {
      key := k;
      stream := s;
      sendCounter := 0;
    }

    ghost function Abs(): End
      reads this, stream
    {
      End(stream.context, sendCounter)
    }

    method SendPacket(c: Crypto, compressionPacket: seq<byte>) returns (encrypted: seq<byte>)
      requires stream.mode == Encrypt
      modifies this, stream
      ensures (encrypted, Abs()) == Send(c, key, old(Abs()), compressionPacket)
    {
      var counter := sendCounter;
      sendCounter := (sendCounter + 1) % 0x1_0000_0000_0000_0000;
      var plain := MakeAesPlaintext(c, compressionPacket, counter, key);
      var encryptedOnly := stream.Process(c, plain.value);
      encrypted := [HEADER];
      encrypted := encrypted + encryptedOnly;
    }
  }

  /** The receiving end: receiveCounter_ and decryptStream_. */
  class Receiver {
    const key: Key
    const stream: CipherStream
    var receiveCounter: u64

    constructor (k: Key, s: CipherStream)
      ensures key == k && stream == s && receiveCounter == 0
    {
      key := k;
      stream := s;
      receiveCounter := 0;
    }

    ghost function Abs(): End
      reads this, stream
    {
      End(stream.context, receiveCounter)
    }

    method ReceivePayload(c: Crypto, payload: seq<byte>) returns (r: Received)
      requires stream.mode == Decrypt
      modifies this, stream
      ensures (r, Abs()) == Receive(c, key, old(Abs()), payload)
    {
      if |payload| == 0 {
        return Nothing;
      }
      if payload[0] != HEADER {
        return NoHeader;
      }
      var encryptedOnly := payload[1..];
      var verification;
      verification, receiveCounter := DecryptAndVerify(c, stream, encryptedOnly, receiveCounter, key);
      if verification.value.None? {
        return Nothing;
      }
      var v := verification.value.value;
      if !Matches(v) {
        return Mismatch(v);
      }
      return Packet(v.packetPlaintext);
    }
  }

  // ---------- sessions ----------

  /** A receiver takes a payload for a packet exactly when it is the payload a sender in the same
      state makes of that packet; both are then in the same next state. */
  lemma ReceivesExactly(c: Crypto, key: Key, e: End, payload: seq<byte>, packet: seq<byte>)
    ensures Receive(c, key, e, payload).0 == Packet(packet) <==> payload == Send(c, key, e, packet).0
    ensures payload == Send(c, key, e, packet).0 ==> Receive(c, key, e, payload).1 == Send(c, key, e, packet).1
  {
    hide Update, Checksum, Verified;
    var made := MakePlain(c, packet, e.counter, key);
    var (out, x) := Update(c, Encrypt, e.context, made);
    Undoes(c, Encrypt, e.context, made);
    MatchesExactly(c, made, e.counter, key);
    assert ([HEADER] + out)[1..] == out && |out| == |made| >= 8;
    if |payload| > 1 && payload[0] == HEADER {
      var body := payload[1..];
      assert payload == [HEADER] + body;
      var plain := Update(c, Decrypt, e.context, body).0;
      Undoes(c, Decrypt, e.context, body);
      MatchesExactly(c, plain, e.counter, key);
    }
  }

  /** What a payload decrypts to is taken for a packet only if it is that packet with the first eight
      bytes of the hash of its message behind it: any other eight bytes, any other packet in front of
      them, and any other count is a mismatch. */
  lemma TakenIsHashed(c: Crypto, key: Key, e: End, payload: seq<byte>, packet: seq<byte>)
    requires |payload| > 1 && payload[0] == 0xFE
    ensures var plain := Update(c, Decrypt, e.context, payload[1..]).0;
            && |plain| == |payload| - 1
            && (Receive(c, key, e, payload).0 == Packet(packet) <==>
                  exists m :: Message(m, packet, e.counter, key) && plain == packet + c.sha256(m)[..8])
  {
    hide Update, Checksum, Message;
    var plain := Update(c, Decrypt, e.context, payload[1..]).0;
    MatchesExactly(c, plain, e.counter, key);
    MessageExists(packet, e.counter, key);
    forall m | Message(m, packet, e.counter, key)
      ensures MakePlain(c, packet, e.counter, key) == packet + c.sha256(m)[..8]
    {
      ChecksumHashes(c, packet, e.counter, key, m);
    }
  }

  /** Whatever does not begin with the header is no encrypted payload, and a bare header holds nothing;
      neither changes the receiver. */
  lemma OtherPayloads(c: Crypto, key: Key, e: End, payload: seq<byte>)
    ensures var (r, e') := Receive(c, key, e, payload);
            && (r == Nothing <==> payload == [] || payload == [0xFE])
            && (r == NoHeader <==> payload != [] && payload[0] != 0xFE)
            && (r == Nothing || r == NoHeader ==> e' == e)
  {
    hide Update, Verified;
    assert |payload| == 1 ==> payload == [payload[0]];
  }

  function SendAll(c: Crypto, key: Key, e: End, packets: seq<seq<byte>>): (seq<seq<byte>>, End)
    decreases |packets|
  {
    if packets == [] then ([], e)
    else
      var (frame, e') := Send(c, key, e, packets[0]);
      var (frames, e'') := SendAll(c, key, e', packets[1..]);
      ([frame] + frames, e'')
  }

  function ReceiveAll(c: Crypto, key: Key, e: End, payloads: seq<seq<byte>>): (seq<Received>, End)
    decreases |payloads|
  {
    if payloads == [] then ([], e)
    else
      var (r, e') := Receive(c, key, e, payloads[0]);
      var (rs, e'') := ReceiveAll(c, key, e', payloads[1..]);
      ([r] + rs, e'')
  }

  function AsPackets(packets: seq<seq<byte>>): (r: seq<Received>)
    ensures |r| == |packets| && forall i | 0 <= i < |r| :: r[i] == Packet(packets[i])
  {
    if packets == [] then [] else [Packet(packets[0])] + AsPackets(packets[1..])
  }

  /** In any run from one state, in either cipher mode, every packet arrives as sent, and both ends
      finish in one state, the counter advanced by the number of packets modulo 2^64. */
  lemma {:induction false} Lockstep(c: Crypto, key: Key, e: End, packets: seq<seq<byte>>)
    ensures var (frames, e') := SendAll(c, key, e, packets);
            && ReceiveAll(c, key, e, frames) == (AsPackets(packets), e')
            && e'.counter == (e.counter + |packets|) % 0x1_0000_0000_0000_0000
    decreases |packets|
  {
    hide Send, Receive;
    if packets != [] {
      var (frame, e1) := Send(c, key, e, packets[0]);
      ReceivesExactly(c, key, e, frame, packets[0]);
      SendCounts(c, key, e, packets[0]);
      Lockstep(c, key, e1, packets[1..]);
      var frames := SendAll(c, key, e1, packets[1..]).0;
      assert ([frame] + frames)[1..] == frames;
      NextAdds(e.counter, |packets| - 1);
    }
  }

  lemma NextAdds(counter: u64, n: nat)
    ensures (Next(counter) + n) % 0x1_0000_0000_0000_0000 == (counter + 1 + n) % 0x1_0000_0000_0000_0000
  {
  }

  lemma SendCounts(c: Crypto, key: Key, e: End, packet: seq<byte>)
    ensures Send(c, key, e, packet).1.counter == Next(e.counter)
  {
  }

  function Chunks(payloads: seq<seq<byte>>): nat {
    if payloads == [] then 0
    else (if |payloads[0]| > 1 && payloads[0][0] == HEADER then 1 else 0) + Chunks(payloads[1..])
  }

  /** Whatever arrives, the receive counter advances by the number of non-empty encrypted chunks,
      mismatched ones included. */
  lemma {:induction false} CountsChunks(c: Crypto, key: Key, e: End, payloads: seq<seq<byte>>)
    ensures ReceiveAll(c, key, e, payloads).1.counter == (e.counter + Chunks(payloads)) % 0x1_0000_0000_0000_0000
    decreases |payloads|
  {
    hide Receive, Next;
    if payloads != [] {
      ReceiveCounts(c, key, e, payloads[0]);
      var e1 := Receive(c, key, e, payloads[0]).1;
      CountsChunks(c, key, e1, payloads[1..]);
      NextAdds(e.counter, Chunks(payloads[1..]));
    }
  }

  lemma ReceiveCounts(c: Crypto, key: Key, e: End, payload: seq<byte>)
    ensures Receive(c, key, e, payload).1.counter
            == if |payload| > 1 && payload[0] == HEADER then Next(e.counter) else e.counter
  {
    hide Update, Verified;
  }

  // ---------- one-shot GCM payloads ----------

  function EncryptedGcm(c: Crypto, packet: seq<byte>, counter: u64, secret: seq<byte>, iv16: seq<byte>)
    : Result<seq<byte>, EncryptionError>
  {
    if |iv16| < 12 then Err(BadIvLength)
    else if |secret| != 32 then Err(BadKeyLength)
    else Ok([HEADER] + Update(c, Encrypt, Gcm(secret, iv16[..12], 0), MakePlain(c, packet, counter, secret)).0)
  }

  function DecryptedGcm(c: Crypto, payload: seq<byte>, counter: u64, secret: seq<byte>, iv16: seq<byte>)
    : Result<seq<byte>, EncryptionError>
  {
    if payload == [] then Err(EmptyPayload)
    else if payload[0] != HEADER then Err(MissingHeader)
    else if |iv16| < 12 then Err(BadIvLength)
    else if |payload| == 1 then Ok([])
    else if |secret| != 32 then Err(BadKeyLength)
    else
      var v := Verified(c, Update(c, Decrypt, Gcm(secret, iv16[..12], 0), payload[1..]).0, counter, secret);
      if Matches(v) then Ok(v.packetPlaintext) else Err(ChecksumMismatch)
  }

  method EncryptMcpePayloadGcm(c: Crypto, packetPlaintext: seq<byte>, sendCounter: u64, secretKeyBytes: seq<byte>,
                               iv16: seq<byte>)
    returns (r: Result<seq<byte>, EncryptionError>)
    ensures r == EncryptedGcm(c, packetPlaintext, sendCounter, secretKeyBytes, iv16)
  {
    if |iv16| < 12 {
      return Err(BadIvLength);
    }
    var plain := MakeAesPlaintext(c, packetPlaintext, sendCounter, secretKeyBytes);
    if plain.Err? {
      return plain;
    }
    var stream := new CipherStream(Gcm(secretKeyBytes, iv16[..12], 0), Encrypt);
    var encrypted := stream.Process(c, plain.value);
    var out := [HEADER];
    out := out + encrypted;
    return Ok(out);
  }

  method DecryptMcpePayloadGcm(c: Crypto, encryptedMcpePayload: seq<byte>, receiveCounter: u64,
                               secretKeyBytes: seq<byte>, iv16: seq<byte>)
    returns (r: Result<seq<byte>, EncryptionError>)
    ensures r == DecryptedGcm(c, encryptedMcpePayload, receiveCounter, secretKeyBytes, iv16)
  {
    if |encryptedMcpePayload| == 0 {
      return Err(EmptyPayload);
    }
    if encryptedMcpePayload[0] != HEADER {
      return Err(MissingHeader);
    }
    if |iv16| < 12 {
      return Err(BadIvLength);
    }
    var encrypted := encryptedMcpePayload[1..];
    if |encrypted| == 0 {
      return Ok([]);
    }
    if |secretKeyBytes| != 32 {
      return Err(BadKeyLength);
    }
    var stream := new CipherStream(Gcm(secretKeyBytes, iv16[..12], 0), Decrypt);
    var plain := stream.Process(c, encrypted);
    var v, _ := VerifyAesPlaintext(c, plain, receiveCounter, secretKeyBytes);
    if !Matches(v.value) {
      return Err(ChecksumMismatch);
    }
    return Ok(v.value.packetPlaintext);
  }

  /** With usable key material, decryptMcpePayloadGcm returns a packet exactly for the payload
      encryptMcpePayloadGcm makes of it, and the empty packet also for a bare header. */
  lemma GcmExactly(c: Crypto, packet: seq<byte>, payload: seq<byte>, counter: u64, key: Key, iv16: seq<byte>)
    requires |iv16| >= 12
    ensures DecryptedGcm(c, payload, counter, key, iv16) == Ok(packet) <==>
            EncryptedGcm(c, packet, counter, key, iv16) == Ok(payload) || (packet == [] && payload == [HEADER])
  {
    hide Update, Verified, Checksum;
    var e := End(Gcm(key, iv16[..12], 0), counter);
    ReceivesExactly(c, key, e, payload, packet);
  }

  /** The bytes of a one-shot payload: a header, then packet and checksum, each byte combined with the
      keystream of the iv's first twelve bytes from its start. */
  lemma GcmBytes(c: Crypto, packet: seq<byte>, counter: u64, key: Key, iv16: seq<byte>, m: seq<byte>, i: nat,
                 block: Block)
    requires |iv16| >= 12 && Message(m, packet, counter, key) && i < |packet| + 8
    requires block[..12] == iv16[..12] && ValueBE(block[12..]) == (2 + i / 16) % 0x1_0000_0000
    ensures var plain := packet + c.sha256(m)[..8];
            var r := EncryptedGcm(c, packet, counter, key, iv16);
            && r.Ok? && |r.value| == |packet| + 9 && r.value[0] == 0xFE
            && r.value[1 + i] == Xor(plain[i], c.aes(key, block)[i % 16])
  {
    hide Update, Checksum, Message, Xor;
    ChecksumHashes(c, packet, counter, key, m);
    Positional(c, Encrypt, Gcm(key, iv16[..12], 0), MakePlain(c, packet, counter, key), i, block);
  }

  /** What is refused, the first reason in this order: no payload, no header, a short iv, and, unless
      the payload is a bare header, a key of another length. */
  lemma GcmRefuses(c: Crypto, packet: seq<byte>, payload: seq<byte>, counter: u64, secret: seq<byte>, iv16: seq<byte>)
    ensures var r := DecryptedGcm(c, payload, counter, secret, iv16);
            && (r == Err(EmptyPayload) <==> payload == [])
            && (r == Err(MissingHeader) <==> payload != [] && payload[0] != 0xFE)
            && (r == Err(BadIvLength) <==> payload != [] && payload[0] == 0xFE && |iv16| < 12)
            && (r == Err(BadKeyLength) <==> |payload| > 1 && payload[0] == 0xFE && |iv16| >= 12 && |secret| != 32)
    ensures var r := EncryptedGcm(c, packet, counter, secret, iv16);
            && (r.Err? <==> |iv16| < 12 || |secret| != 32)
            && (r.Err? ==> r.error == if |iv16| < 12 then BadIvLength else BadKeyLength)
  {
    hide Update, Verified, MakePlain;
  }
}
