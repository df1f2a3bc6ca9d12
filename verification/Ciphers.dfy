/** The two stateful cipher streams of src/BedrockEncryption.cpp: AES-256 in CFB8 (section 6.3 of NIST
    SP 800-38A) and the tagless counter stream of GCM (section 6.5 of NIST SP 800-38D). The block
    cipher and the hash are arbitrary functions. */
module Ciphers {
  import opened Wrappers
  import opened Bits
  import opened Words

  type Key = s: seq<byte> | |s| == 32 witness seq(32, i => 0)
  type Block = s: seq<byte> | |s| == 16 witness seq(16, i => 0)
  type Iv12 = s: seq<byte> | |s| == 12 witness seq(12, i => 0)
  type Digest = s: seq<byte> | |s| == 32 witness seq(32, i => 0)

  datatype Crypto = Crypto(aes: (Key, Block) -> Block, sha256: seq<byte> -> Digest)

  datatype Mode = Encrypt | Decrypt
  datatype Algorithm = Aes256Cfb8 | Aes256GcmNoTag

  /** An EVP cipher context: the CFB8 shift register, or the GCM nonce and the stream position. */
  datatype Context =
    | Cfb8(key: Key, register: Block)
    | Gcm(key: Key, iv: Iv12, position: nat)

  datatype EncryptionError =
    | BadKeyLength | BadIvLength | EmptyPayload | MissingHeader | ChecksumMismatch

  function XorByte(a: byte, b: byte): (r: byte) {
    Powers();
    XorBound(a, b, 8);
    Xor(a, b)
  }

  /** The i-th block that is enciphered for a GCM message: the nonce and a 32-bit counter that starts
      at 2, one after the block reserved for the tag. */
  function CounterBlock(iv: Iv12, i: nat): Block {
    iv + BytesBE((2 + i) % 0x1_0000_0000, 4)
  }

  /** The byte combined with the next input byte. */
  function KeyByte(c: Crypto, x: Context): byte {
    match x
    case Cfb8(key, register) => c.aes(key, register)[0]
    case Gcm(key, iv, position) => c.aes(key, CounterBlock(iv, position / 16))[position % 16]
  }

  /** The context after one byte of ciphertext. */
  function Advance(x: Context, cipher: byte): Context {
    match x
    case Cfb8(key, register) => Cfb8(key, register[1..] + [cipher])
    case Gcm(key, iv, position) => Gcm(key, iv, position + 1)
  }

  /** EVP_EncryptUpdate and EVP_DecryptUpdate. */
  function Update(c: Crypto, m: Mode, x: Context, input: seq<byte>): (r: (seq<byte>, Context))
    ensures |r.0| == |input|
    decreases |input|
  {
    if input == [] then ([], x)
    else
      var b := XorByte(input[0], KeyByte(c, x));
      var (rest, x') := Update(c, m, Advance(x, if m.Encrypt? then b else input[0]), input[1..]);
      ([b] + rest, x')
  }

  // ---------- laws of the streams ----------

  function Opposite(m: Mode): Mode {
    if m.Encrypt? then Decrypt else Encrypt
  }

  /** Two streams in one state and opposite modes undo each other and stay in one state. */
  lemma {:induction false} Undoes(c: Crypto, m: Mode, x: Context, input: seq<byte>)
    ensures var (out, x') := Update(c, m, x, input);
            Update(c, Opposite(m), x, out) == (input, x')
    decreases |input|
  {
    hide XorByte, KeyByte, Advance;
    if input != [] {
      var b := XorByte(input[0], KeyByte(c, x));
      var x1 := Advance(x, if m.Encrypt? then b else input[0]);
      var (rest, x') := Update(c, m, x1, input[1..]);
      Undoes(c, m, x1, input[1..]);
      XorByteBack(input[0], KeyByte(c, x));
      assert ([b] + rest)[1..] == rest;
      assert input == [input[0]] + input[1..];
    }
  }

  lemma XorByteBack(a: byte, k: byte)
    ensures XorByte(XorByte(a, k), k) == a
  {
    XorBack(a, k);
  }

  /** How a message is cut into writes does not matter. */
  lemma {:induction false} Chunked(c: Crypto, m: Mode, x: Context, a: seq<byte>, b: seq<byte>)
    ensures var (oa, xa) := Update(c, m, x, a);
            var (ob, xb) := Update(c, m, xa, b);
            Update(c, m, x, a + b) == (oa + ob, xb)
    decreases |a|
  {
    hide XorByte, KeyByte, Advance;
    if a == [] {
      assert a + b == b;
      assert [] + Update(c, m, x, b).0 == Update(c, m, x, b).0;
    } else {
      var o := XorByte(a[0], KeyByte(c, x));
      var x1 := Advance(x, if m.Encrypt? then o else a[0]);
      Chunked(c, m, x1, a[1..], b);
      assert (a + b)[1..] == a[1..] + b;
      var oa, ob := Update(c, m, x1, a[1..]).0, Update(c, m, Update(c, m, x, a).1, b).0;
      assert [o] + (oa + ob) == [o] + oa + ob;
    }
  }

  /** The GCM stream combines the byte at each position with the keystream byte of that position, in
      both modes alike: byte p mod 16 of the enciphered block that holds the nonce and then the number
      2 + p / 16 in 32 bits. */
  lemma {:induction false} Positional(c: Crypto, m: Mode, x: Context, input: seq<byte>, i: nat, block: Block)
    requires x.Gcm? && i < |input|
    requires block[..12] == x.iv && ValueBE(block[12..]) == (2 + (x.position + i) / 16) % 0x1_0000_0000
    ensures Update(c, m, x, input).0[i] == Xor(input[i], c.aes(x.key, block)[(x.position + i) % 16])
    ensures Update(c, m, x, input).1 == x.(position := x.position + |input|)
    decreases |input|
  {
    hide CounterBlock, Xor;
    var b := XorByte(input[0], KeyByte(c, x));
    var x1 := Advance(x, if m.Encrypt? then b else input[0]);
    if i == 0 {
      CounterBlockIs(x.iv, x.position / 16, block);
    }
    if |input| > 1 {
      var j := if i == 0 then 0 else i - 1;
      var next := CounterBlock(x.iv, (x1.position + j) / 16);
      CounterBlockHolds(x.iv, (x1.position + j) / 16);
      Positional(c, m, x1, input[1..], j, if i == 0 then next else block);
    } else {
      assert input[1..] == [];
    }
  }

  lemma CounterBlockHolds(iv: Iv12, i: nat)
    ensures CounterBlock(iv, i)[..12] == iv && ValueBE(CounterBlock(iv, i)[12..]) == (2 + i) % 0x1_0000_0000
  {
    Powers();
    ValueOfBytesBE((2 + i) % 0x1_0000_0000, 4);
  }

  lemma CounterBlockIs(iv: Iv12, i: nat, block: Block)
    requires block[..12] == iv && ValueBE(block[12..]) == (2 + i) % 0x1_0000_0000
    ensures block == CounterBlock(iv, i)
  {
    BytesOfValueBE(block[12..]);
    assert block == block[..12] + block[12..];
  }

  /** The CFB8 stream combines each byte with the first byte of the enciphered sixteen bytes that stand
      before it in the ciphertext, the first register counted as ciphertext before the message. */
  lemma {:induction false} FeedBack(c: Crypto, m: Mode, x: Context, input: seq<byte>, i: nat)
    requires x.Cfb8? && i < |input|
    ensures var out := Update(c, m, x, input).0;
            var stream: seq<byte> := x.register + if m.Encrypt? then out else input;
            out[i] == Xor(input[i], c.aes(x.key, stream[i..i + 16])[0])
    decreases |input|
  {
    hide Xor;
    var out := Update(c, m, x, input).0;
    var fed := if m.Encrypt? then out[0] else input[0];
    var stream: seq<byte> := x.register + if m.Encrypt? then out else input;
    if i == 0 {
      assert stream[0..16] == x.register;
    } else {
      var x1 := Advance(x, fed);
      FeedBack(c, m, x1, input[1..], i - 1);
      var rest := Update(c, m, x1, input[1..]).0;
      assert out[1..] == rest;
      NextWindow(x.register, fed, if m.Encrypt? then rest else input[1..], if m.Encrypt? then out else input, i);
    }
  }

  /** The sixteen bytes before a place, seen from one byte on. */
  lemma NextWindow(r: seq<byte>, b: byte, rest: seq<byte>, all: seq<byte>, i: nat)
    requires |r| == 16 && 0 < i < |all| && |all| == |rest| + 1 && all[0] == b && all[1..] == rest
    ensures (r[1..] + [b] + rest)[i - 1..i + 15] == (r + all)[i..i + 16]
  {
    assert all == [b] + rest;
    assert r[1..] + [b] + rest == (r + all)[1..];
  }

  /** The CFB8 register always holds the last sixteen bytes of ciphertext, the first register counted
      as ciphertext before the message. */
  lemma {:induction false} RegisterHolds(c: Crypto, m: Mode, x: Context, input: seq<byte>)
    requires x.Cfb8?
    ensures var (out, x') := Update(c, m, x, input);
            var cipher := if m.Encrypt? then out else input;
            x' == x.(register := (x.register + cipher)[|input|..])
    decreases |input|
  {
    hide XorByte, KeyByte;
    var (out, x') := Update(c, m, x, input);
    var cipher := if m.Encrypt? then out else input;
    if input == [] {
      assert (x.register + cipher)[0..] == x.register;
    } else {
      var b := cipher[0];
      var x1 := Advance(x, b);
      RegisterHolds(c, m, x1, input[1..]);
      var rest := cipher[1..];
      Shifted(x.register, b, rest, |input| - 1);
      assert cipher == [b] + rest;
      assert Update(c, m, x, input).0[1..] == Update(c, m, x1, input[1..]).0;
    }
  }

  lemma Shifted(r: seq<byte>, b: byte, rest: seq<byte>, n: nat)
    requires |r| == 16 && n <= |rest|
    ensures (r[1..] + [b] + rest)[n..] == (r + ([b] + rest))[n + 1..]
  {
    assert r[1..] + [b] + rest == (r + ([b] + rest))[1..];
  }

  // ---------- the C++ classes ----------

  const GCM_PROTOCOL_VERSION: u32 := 431

  function CipherAlgorithmForProtocol(protocolVersion: u32): Algorithm {
    if protocolVersion < GCM_PROTOCOL_VERSION then Aes256Cfb8 else Aes256GcmNoTag
  }

  /** BedrockAesCfb8Stream and BedrockAesGcmStream, told apart by the context they hold. */
  class CipherStream {
    const mode: Mode
    var context: Context

    constructor (x: Context, m: Mode)
      ensures context == x && mode == m
    {
      context := x;
      mode := m;
    }

    method Process(c: Crypto, input: seq<byte>) returns (out: seq<byte>)
      modifies this
      ensures (out, context) == Update(c, mode, old(context), input)
    {
      if |input| == 0 {
        return [];
      }
      out, context := Update(c, mode, context, input).0, Update(c, mode, context, input).1;
    }
  }

  /** createCipherStream: below protocol 431 a CFB8 stream whose first register is the whole iv, from
      431 on a counter stream that starts at position 0 under the iv's first twelve bytes. */
  method CreateCipherStream(protocolVersion: u32, secretKeyBytes: seq<byte>, iv16: seq<byte>, mode: Mode)
    returns (r: Result<CipherStream, EncryptionError>)
    ensures r.Err? <==> |secretKeyBytes| != 32 || (if protocolVersion < 431 then |iv16| != 16 else |iv16| < 12)
    ensures r.Err? ==> r.error == if |secretKeyBytes| != 32 then BadKeyLength else BadIvLength
    ensures r.Ok? ==>
              && fresh(r.value) && r.value.mode == mode && r.value.context.key == secretKeyBytes
              && (r.value.context.Cfb8? <==> protocolVersion < 431)
              && (r.value.context.Cfb8? ==> r.value.context.register == iv16)
              && (r.value.context.Gcm? ==> r.value.context.iv == iv16[..12] && r.value.context.position == 0)
  {
    if |secretKeyBytes| != 32 {
      return Err(BadKeyLength);
    }
    var stream: CipherStream;
    if CipherAlgorithmForProtocol(protocolVersion) == Aes256Cfb8 {
      if |iv16| != 16 {
        return Err(BadIvLength);
      }
      stream := new CipherStream(Cfb8(secretKeyBytes, iv16), mode);
    } else {
      if |iv16| < 12 {
        return Err(BadIvLength);
      }
      stream := new CipherStream(Gcm(secretKeyBytes, iv16[..12], 0), mode);
    }
    return Ok(stream);
  }
}
