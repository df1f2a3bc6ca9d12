/** encodeBatch and decodeBatch (src/BedrockFramer.cpp): the uncompressed, compressor-header and
    legacy forms of a batch. zlib and Snappy are arbitrary functions that may fail. */
module Batch {
  import opened Wrappers
  import opened Bits
  import opened Framer

  const BATCH_HEADER: byte := 0xFE
  const COMPRESSION_DEFLATE: byte := 0x00
  const COMPRESSION_SNAPPY: byte := 0x01
  const COMPRESSION_NONE: byte := 0xFF

  datatype Settings = Settings(
    compressionReady: bool,
    compressorInHeader: bool,
    compressionThreshold: u16,
    compressionAlgorithm: u16)

  type Codec = seq<byte> -> Option<seq<byte>>

  /** deflate and inflate of zlib on non-empty input, and SnappyCodec; None where they fail. */
  datatype Codecs = Codecs(zlibDeflate: Codec, zlibInflate: Codec, snappyCompress: Codec, snappyDecompress: Codec)

  function DeflateRaw(c: Codecs, input: seq<byte>): Option<seq<byte>> {
    if input == [] then Some([]) else c.zlibDeflate(input)
  }

  function InflateRaw(c: Codecs, input: seq<byte>): Option<seq<byte>> {
    if input == [] then Some([]) else c.zlibInflate(input)
  }

  /** Compression with the negotiated algorithm: 0 is deflate, 1 Snappy. */
  function Compress(c: Codecs, algorithm: u16, input: seq<byte>): Result<seq<byte>, FramerError> {
    if algorithm == 0 then OrFailed(DeflateRaw(c, input))
    else if algorithm == 1 then OrFailed(c.snappyCompress(input))
    else Err(UnknownAlgorithm)
  }

  function Decompress(c: Codecs, algorithm: u16, input: seq<byte>): Result<seq<byte>, FramerError> {
    if algorithm == 0 then OrFailed(InflateRaw(c, input))
    else if algorithm == 1 then OrFailed(c.snappyDecompress(input))
    else Err(UnknownAlgorithm)
  }

  function OrFailed(r: Option<seq<byte>>): Result<seq<byte>, FramerError> {
    match r
    case Some(v) => Ok(v)
    case None => Err(CodecFailed)
  }

  /** All that is assumed of the compressors: decompression undoes them. */
  ghost predicate Inverse(c: Codecs) {
    forall x, a: u16 | Compress(c, a, x).Ok? :: Decompress(c, a, Compress(c, a, x).value) == Ok(x)
  }

  // ---------- what the two routines compute ----------

  function Encoded(c: Codecs, ps: Packets, s: Settings): Result<seq<byte>, FramerError> {
    match FramedOrErr(ps)
    case Err(e) => Err(e)
    case Ok(framed) =>
      if !s.compressionReady then Ok([BATCH_HEADER] + framed)
      else if |framed| <= s.compressionThreshold then
        Ok([BATCH_HEADER] + (if s.compressorInHeader then [COMPRESSION_NONE] else []) + framed)
      else
        match Compress(c, s.compressionAlgorithm, framed)
        case Err(e) => Err(e)
        case Ok(z) => Ok([BATCH_HEADER] + (if s.compressorInHeader then [s.compressionAlgorithm] else []) + z)
  }

  function FramedOrErr(ps: Packets): Result<seq<byte>, FramerError> {
    if forall i | 0 <= i < |ps| :: |ps[i]| < 0x1_0000_0000 then Ok(Framed(ps)) else Err(PacketTooLarge)
  }

  function Decoded(c: Codecs, batch: seq<byte>, s: Settings): Result<Packets, FramerError> {
    if batch == [] then Err(EmptyBatch)
    else if batch[0] != BATCH_HEADER then Err(BadHeader)
    else if !s.compressionReady then Unframed(batch[1..])
    else if !s.compressorInHeader then LegacyBody(c, batch[1..], s.compressionAlgorithm)
    else if |batch| == 1 then Err(MissingCompressionHeader)
    else HeaderBody(c, batch[1], batch[2..])
  }

  /** The legacy form: whatever the decompressor rejects is taken as raw packets. */
  function LegacyBody(c: Codecs, body: seq<byte>, algorithm: u16): Result<Packets, FramerError> {
    match Decompress(c, algorithm, body)
    case Ok(framed) => Unframed(framed)
    case Err(_) => Unframed(body)
  }

  function HeaderBody(c: Codecs, header: byte, body: seq<byte>): Result<Packets, FramerError> {
    if header == COMPRESSION_NONE then Unframed(body)
    else if header == COMPRESSION_DEFLATE || header == COMPRESSION_SNAPPY then
      match Decompress(c, header, body)
      case Ok(framed) => Unframed(framed)
      case Err(e) => Err(e)
    else Err(UnknownCompressionHeader)
  }

  // ---------- the C++ routines ----------

  method EncodeBatch(c: Codecs, packets: Packets, settings: Settings) returns (r: Result<seq<byte>, FramerError>)
    ensures r == Encoded(c, packets, settings)
  {
    hide Framed;
    var framing := FramePackets(packets);
    if framing.Err? {
      return Err(framing.error);
    }
    var framed := framing.value;
    var out := [BATCH_HEADER];
    assert out + [] == out;
    if !settings.compressionReady {
      out := out + framed;
      return Ok(out);
    }
    var shouldCompress := |framed| > settings.compressionThreshold;
    if !settings.compressorInHeader {
      if shouldCompress {
        if settings.compressionAlgorithm == 0 {
          var compressed := DeflateRaw(c, framed);
          if compressed.None? {
            return Err(CodecFailed);
          }
          out := out + compressed.value;
        } else if settings.compressionAlgorithm == 1 {
          var compressed := c.snappyCompress(framed);
          if compressed.None? {
            return Err(CodecFailed);
          }
          out := out + compressed.value;
        } else {
          return Err(UnknownAlgorithm);
        }
      } else {
        out := out + framed;
      }
      return Ok(out);
    }
    if !shouldCompress {
      out := out + [COMPRESSION_NONE];
      out := out + framed;
      return Ok(out);
    }
    if settings.compressionAlgorithm == 0 {
      out := out + [COMPRESSION_DEFLATE];
      var compressed := DeflateRaw(c, framed);
      if compressed.None? {
        return Err(CodecFailed);
      }
      out := out + compressed.value;
      return Ok(out);
    }
    if settings.compressionAlgorithm == 1 {
      out := out + [COMPRESSION_SNAPPY];
      var compressed := c.snappyCompress(framed);
      if compressed.None? {
        return Err(CodecFailed);
      }
      out := out + compressed.value;
      return Ok(out);
    }
    return Err(UnknownAlgorithm);
  }

  method DecodeBatch(c: Codecs, batch: seq<byte>, settings: Settings) returns (r: Result<Packets, FramerError>)
    ensures r == Decoded(c, batch, settings)
  {
    hide Unframed;
    if |batch| == 0 {
      return Err(EmptyBatch);
    }
    if batch[0] != BATCH_HEADER {
      return Err(BadHeader);
    }
    var off := 1;
    var framed := [];
    if !settings.compressionReady {
      framed := batch[off..];
      r := UnframePackets(framed);
      return;
    }
    if !settings.compressorInHeader {
      var body := batch[off..];
      // the try block, and the handler that falls back on the raw bytes
      var inflated := Decompress(c, settings.compressionAlgorithm, body);
      match inflated {
        case Ok(v) => framed := v;
        case Err(_) => framed := body;
      }
      r := UnframePackets(framed);
      return;
    }
    if off >= |batch| {
      return Err(MissingCompressionHeader);
    }
    var compressionHeader := batch[off];
    off := off + 1;
    if compressionHeader == COMPRESSION_NONE {
      framed := batch[off..];
      r := UnframePackets(framed);
      return;
    }
    if compressionHeader == COMPRESSION_DEFLATE {
      var inflated := InflateRaw(c, batch[off..]);
      if inflated.None? {
        return Err(CodecFailed);
      }
      r := UnframePackets(inflated.value);
      return;
    }
    if compressionHeader == COMPRESSION_SNAPPY {
      var inflated := c.snappyDecompress(batch[off..]);
      if inflated.None? {
        return Err(CodecFailed);
      }
      r := UnframePackets(inflated.value);
      return;
    }
    return Err(UnknownCompressionHeader);
  }

  // ---------- what a batch is, in the compressors' own terms ----------

  /** encodeBatch makes exactly these bytes: raw frames before compression is on; from then on raw
      frames up to the threshold, and above it what the negotiated compressor makes of them. With the
      compressor byte that is 0xFF, 0 for deflate or 1 for Snappy, and in the legacy form there is none. */
  lemma EncodesExactly(c: Codecs, ps: Packets, s: Settings, b: seq<byte>)
    ensures Encoded(c, ps, s) == Ok(b) <==>
            && Framable(ps) && b != [] && b[0] == 0xFE
            && var f := Framed(ps);
            if !s.compressionReady then b[1..] == f
            else if |f| <= s.compressionThreshold then
              if s.compressorInHeader then |b| > 1 && b[1] == 0xFF && b[2..] == f else b[1..] == f
            else if s.compressorInHeader then
              && |b| > 1
              && ((s.compressionAlgorithm == 0 && b[1] == 0 && c.zlibDeflate(f) == Some(b[2..])) ||
                  (s.compressionAlgorithm == 1 && b[1] == 1 && c.snappyCompress(f) == Some(b[2..])))
            else
              || (s.compressionAlgorithm == 0 && c.zlibDeflate(f) == Some(b[1..]))
              || (s.compressionAlgorithm == 1 && c.snappyCompress(f) == Some(b[1..]))
  {
    hide Framed;
    var f := Framed(ps);
    HeaderThen(b, f);
    HeaderTwo(b, COMPRESSION_NONE, f);
    if f != [] && c.zlibDeflate(f).Some? {
      HeaderThen(b, c.zlibDeflate(f).value);
      HeaderTwo(b, COMPRESSION_DEFLATE, c.zlibDeflate(f).value);
    }
    if c.snappyCompress(f).Some? {
      HeaderThen(b, c.snappyCompress(f).value);
      HeaderTwo(b, COMPRESSION_SNAPPY, c.snappyCompress(f).value);
    }
  }

  lemma HeaderThen(b: seq<byte>, x: seq<byte>)
    ensures b == [BATCH_HEADER] + x <==> b != [] && b[0] == 0xFE && b[1..] == x
    ensures [BATCH_HEADER] + [] + x == [BATCH_HEADER] + x
  {
    assert b != [] ==> b == [b[0]] + b[1..];
  }

  lemma HeaderTwo(b: seq<byte>, y: byte, x: seq<byte>)
    ensures b == [BATCH_HEADER] + [y] + x <==> |b| > 1 && b[0] == 0xFE && b[1] == y && b[2..] == x
  {
    assert |b| > 1 ==> b == [b[0]] + [b[1]] + b[2..];
  }

  /** And it fails exactly for a packet above 32 bits, an unknown algorithm that is needed, or a
      compressor that fails. */
  lemma EncodeFails(c: Codecs, ps: Packets, s: Settings)
    ensures Encoded(c, ps, s) == Err(PacketTooLarge) <==> !Framable(ps)
    ensures Framable(ps) ==>
              var f := Framed(ps);
              var compresses := s.compressionReady && |f| > s.compressionThreshold;
              && (Encoded(c, ps, s) == Err(UnknownAlgorithm) <==> compresses && s.compressionAlgorithm > 1)
              && (Encoded(c, ps, s) == Err(CodecFailed) <==>
                    compresses && ((s.compressionAlgorithm == 0 && c.zlibDeflate(f).None?) ||
                                   (s.compressionAlgorithm == 1 && c.snappyCompress(f).None?)))
  {
    hide Framed;
  }

  /** The frames a body holds under an algorithm. */
  ghost predicate Inflates(c: Codecs, algorithm: u16, body: seq<byte>, framed: seq<byte>) {
    || (algorithm == 0 && (if body == [] then framed == [] else c.zlibInflate(body) == Some(framed)))
    || (algorithm == 1 && c.snappyDecompress(body) == Some(framed))
  }

  /** decodeBatch returns packets exactly when the batch begins with its header byte and holds their
      frames in the form the settings call for; in the legacy form a body that does not inflate is the
      frames itself. */
  lemma DecodesExactly(c: Codecs, batch: seq<byte>, t: Settings, ps: Packets)
    ensures Decoded(c, batch, t) == Ok(ps) <==>
            && batch != [] && batch[0] == 0xFE
            && exists framed: seq<byte> ::
                 && Unframed(framed) == Ok(ps)
                 && if !t.compressionReady then batch[1..] == framed
                    else if t.compressorInHeader then
                      && |batch| > 1
                      && if batch[1] == 0xFF then batch[2..] == framed
                         else batch[1] <= 1 && Inflates(c, batch[1], batch[2..], framed)
                    else if exists x :: Inflates(c, t.compressionAlgorithm, batch[1..], x) then
                      Inflates(c, t.compressionAlgorithm, batch[1..], framed)
                    else batch[1..] == framed
  {
    hide Unframed;
    if batch != [] {
      InflatesIs(c, t.compressionAlgorithm, batch[1..]);
    }
    if |batch| > 1 {
      InflatesIs(c, batch[1], batch[2..]);
    }
  }

  lemma InflatesIs(c: Codecs, algorithm: u16, body: seq<byte>)
    ensures forall x :: Inflates(c, algorithm, body, x) <==> Decompress(c, algorithm, body) == Ok(x)
    ensures (exists x :: Inflates(c, algorithm, body, x)) <==> Decompress(c, algorithm, body).Ok?
  {
    if Decompress(c, algorithm, body).Ok? {
      assert Inflates(c, algorithm, body, Decompress(c, algorithm, body).value);
    }
  }

  // ---------- round trips ----------

  /** Without compression a batch decodes to its packets, whatever else the settings say. */
  lemma UncompressedRoundTrip(c: Codecs, ps: Packets, s: Settings, t: Settings)
    requires Encoded(c, ps, s).Ok? && !s.compressionReady && !t.compressionReady
    ensures Decoded(c, Encoded(c, ps, s).value, t) == Ok(ps)
  {
    hide Framed, Unframed;
    var b := Encoded(c, ps, s).value;
    assert b[1..] == Framed(ps);
    UnframesFramed(ps);
  }

  /** With the compressor named in the batch, sender and receiver need not agree on an algorithm or a
      threshold. */
  lemma HeaderRoundTrip(c: Codecs, ps: Packets, s: Settings, t: Settings)
    requires Inverse(c) && Encoded(c, ps, s).Ok?
    requires s.compressionReady && s.compressorInHeader && t.compressionReady && t.compressorInHeader
    ensures Decoded(c, Encoded(c, ps, s).value, t) == Ok(ps)
  {
    hide Framed, Unframed, Compress, Decompress;
    var b, framed := Encoded(c, ps, s).value, Framed(ps);
    UnframesFramed(ps);
    if |framed| <= s.compressionThreshold {
      assert b[1] == COMPRESSION_NONE && b[2..] == framed;
    } else {
      KnownAlgorithm(c, s.compressionAlgorithm, framed);
      var z := Compress(c, s.compressionAlgorithm, framed).value;
      assert b[1] == s.compressionAlgorithm && b[2..] == z;
    }
  }

  lemma KnownAlgorithm(c: Codecs, a: u16, x: seq<byte>)
    requires Compress(c, a, x).Ok?
    ensures a == 0 || a == 1
  {
  }

  /** In the legacy form a batch decodes to its packets exactly when the receiver's decompressor
      rejects the body and the body is raw, or its output is the packets' frames; a body that was
      compressed always comes back when both sides use one algorithm. */
  lemma LegacyExactly(c: Codecs, ps: Packets, s: Settings, t: Settings)
    requires Encoded(c, ps, s).Ok?
    requires s.compressionReady && !s.compressorInHeader && t.compressionReady && !t.compressorInHeader
    ensures var framed, a := Framed(ps), t.compressionAlgorithm;
            var d := Decompress(c, a, framed);
            |framed| <= s.compressionThreshold ==>
              (Decoded(c, Encoded(c, ps, s).value, t) == Ok(ps) <==> d.Err? || Unframed(d.value) == Ok(ps))
    ensures Inverse(c) && |Framed(ps)| > s.compressionThreshold && s.compressionAlgorithm == t.compressionAlgorithm ==>
              Decoded(c, Encoded(c, ps, s).value, t) == Ok(ps)
  {
    hide Framed, Unframed, Compress, Decompress;
    var b, framed := Encoded(c, ps, s).value, Framed(ps);
    UnframesFramed(ps);
    if |framed| <= s.compressionThreshold {
      assert b[1..] == framed;
    } else {
      assert b[1..] == Compress(c, s.compressionAlgorithm, framed).value;
    }
  }

  /** Compressors of this kind exist, so the assumptions made of them can be met together. */
  lemma CodecsExist()
    ensures exists c: Codecs :: Inverse(c) && StopsAtEmptyBlock(c)
  {
    var c := Codecs(
      x => Some([1] + x),
      y => if y != [] && y[0] == 1 then Some(y[1..]) else Some([]),
      x => Some(x), x => Some(x));
    forall x: seq<byte>, a: u16 | Compress(c, a, x).Ok?
      ensures Decompress(c, a, Compress(c, a, x).value) == Ok(x)
    {
      assert ([1] + x)[1..] == x;
    }
    forall tail: seq<byte>
      ensures c.zlibInflate([3, 0] + tail) == Some([])
    {
      assert ([3, 0] + tail)[0] == 3;
    }
    assert Inverse(c) && StopsAtEmptyBlock(c);
  }

  // ---------- the legacy round trip fails ----------

  /** A property every RFC 1951 inflater has: by sections 3.2.3 and 3.2.6 the bytes 03 00 are a
      complete final block that holds nothing, and what follows it is not read. */
  ghost predicate StopsAtEmptyBlock(c: Codecs) {
    forall tail: seq<byte> :: c.zlibInflate([3, 0] + tail) == Some([])
  }

  /** A one-packet batch whose packet is three bytes, the first of them zero, is lost: it decodes to
      no packets at all. */
  lemma LegacyLosesPacket(c: Codecs, x: byte, y: byte, s: Settings, t: Settings)
    requires StopsAtEmptyBlock(c) && s.compressionThreshold >= 4 && t.compressionAlgorithm == 0
    requires s.compressionReady && !s.compressorInHeader && t.compressionReady && !t.compressorInHeader
    ensures var ps: Packets := [[0, x, y]];
            Encoded(c, ps, s) == Ok([BATCH_HEADER, 3, 0, x, y]) && Decoded(c, [BATCH_HEADER, 3, 0, x, y], t) == Ok([])
  {
    var p: seq<byte> := [0, x, y];
    var ps: Packets := [p];
    OneFrame(p);
    var b: seq<byte> := [BATCH_HEADER, 3, 0, x, y];
    var body: seq<byte> := [3, 0] + [x, y];
    assert Framed(ps) == body;
    hide Framed;
    assert [BATCH_HEADER] + [] + body == b && b[1..] == body;
    assert c.zlibInflate(body) == Some([]);
    assert Unframed([]) == Ok([]);
  }

  lemma OneFrame(p: seq<byte>)
    requires |p| == 3
    ensures Framed([p]) == [3] + p
  {
    var hs: Packets := [[3]];
    assert [p][1..] == [] && hs[1..] == [];
    assert Headers([p]) == hs;
    assert Glue(hs, [p]) == [3] + p + Glue([], []);
  }
}
