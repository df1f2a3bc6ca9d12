/** framePackets and unframePackets (src/BedrockFramer.cpp): packets, each behind its varint length. */
module Framer {
  import opened Wrappers
  import opened Bits
  import opened Leb128

  datatype FramerError =
    | PacketTooLarge | VarOutOfRange | VarTooBig | LengthExceedsBuffer
    | UnknownAlgorithm | CodecFailed | EmptyBatch | BadHeader | MissingCompressionHeader | UnknownCompressionHeader

  type Packets = seq<seq<byte>>

  // ---------- framing ----------

  /** Each packet behind its own prefix. */
  function Glue(hs: Packets, ps: Packets): (r: seq<byte>)
    requires |hs| == |ps|
  {
    if ps == [] then [] else hs[0] + ps[0] + Glue(hs[1..], ps[1..])
  }

  function Headers(ps: Packets): (r: Packets)
    ensures |r| == |ps| && forall i | 0 <= i < |ps| :: r[i] == Leb(|ps[i]|)
  {
    if ps == [] then [] else [Leb(|ps[0]|)] + Headers(ps[1..])
  }

  function Framed(ps: Packets): seq<byte> {
    Glue(Headers(ps), ps)
  }

  /** Every packet's length fits uint32_t. */
  ghost predicate Framable(ps: Packets) {
    forall i | 0 <= i < |ps| :: |ps[i]| < 0x1_0000_0000
  }

  /** A prefix unframePackets takes for a packet: at most five bytes that read as its length. */
  ghost predicate PrefixOf(h: seq<byte>, p: seq<byte>) {
    IsVarint(h) && |h| <= 5 && Value(h) % 0x1_0000_0000 == |p|
  }

  ghost predicate Prefixed(hs: Packets, ps: Packets) {
    |hs| == |ps| && forall i | 0 <= i < |ps| :: PrefixOf(hs[i], ps[i])
  }

  /** What unframePackets returns from the cursor position on, and the prefixes it met. */
  function Unframe(data: seq<byte>, off: nat): (r: Result<(Packets, Packets), FramerError>)
    requires off <= |data|
    ensures r.Ok? ==> |r.value.0| == |r.value.1|
    decreases |data| - off
  {
    if off == |data| then Ok(([], []))
    else
      match Header(data, off)
      case Err(e) => Err(e)
      case Ok((len, start)) =>
        if start + len > |data| then Err(LengthExceedsBuffer)
        else
          match Unframe(data, start + len)
          case Err(e) => Err(e)
          case Ok((hs, ps)) => Ok(([data[off..start]] + hs, [data[start..start + len]] + ps))
  }

  /** readVarUInt: the word at `off` and the offset after it. */
  function Header(data: seq<byte>, off: nat): (r: Result<(nat, nat), FramerError>)
    ensures r.Ok? ==> off < r.value.1 <= |data|
  {
    match ReadVar(data, off, 5, 32)
    case Got(v, next) => Ok((v, next))
    case OutOfRange(_) => Err(VarOutOfRange)
    case TooBig(_) => Err(VarTooBig)
  }

  function Unframed(data: seq<byte>): Result<Packets, FramerError> {
    match Unframe(data, 0)
    case Ok((_, ps)) => Ok(ps)
    case Err(e) => Err(e)
  }

  lemma HeaderIs(data: seq<byte>, off: nat, h: seq<byte>)
    requires off + |h| <= |data| && data[off..off + |h|] == h && IsVarint(h) && |h| <= 5
    ensures Header(data, off) == Ok((Value(h) % 0x1_0000_0000, off + |h|))
  {
    hide VarintAt, Value, ReadVar, Pow2;
    VarintMoved(data, off, h);
    ReadsAt(data, off, |h|, 5, 32);
    Word32();
  }

  lemma HeaderReads(data: seq<byte>, off: nat)
    requires Header(data, off).Ok?
    ensures var (len, start) := Header(data, off).value;
            && off < start <= |data| && start <= off + 5
            && IsVarint(data[off..start]) && Value(data[off..start]) % 0x1_0000_0000 == len
  {
    ReadExactly(data, off, 5, 32);
    Word32();
  }

  /** Every prefixed list of packets is accepted, with those prefixes and packets. */
  lemma {:induction false} GlueAccepted(data: seq<byte>, off: nat, hs: Packets, ps: Packets)
    requires off <= |data| && Prefixed(hs, ps) && data[off..] == Glue(hs, ps)
    ensures Unframe(data, off) == Ok((hs, ps))
    decreases |ps|
  {
    hide PrefixOf, Prefixed, Glue, Unframe, Header;
    if ps == [] {
      NoneAccepted(data, off, hs);
    } else {
      GlueStep(hs, ps);
      var h, p, hs', ps' := hs[0], ps[0], hs[1..], ps[1..];
      var start := off + |h|;
      Parts(data, off, h, p, Glue(hs', ps'));
      GlueAccepted(data, start + |p|, hs', ps');
      HeadAccepted(data, off, h, p);
      UnframeStep(data, off, |p|, start, hs', ps');
      HeadAndTail(hs);
      HeadAndTail(ps);
    }
  }

  lemma NoneAccepted(data: seq<byte>, off: nat, hs: Packets)
    requires off <= |data| && Prefixed(hs, []) && data[off..] == Glue(hs, [])
    ensures hs == [] && Unframe(data, off) == Ok(([], []))
  {
    assert |data[off..]| == 0;
  }

  lemma GlueStep(hs: Packets, ps: Packets)
    requires Prefixed(hs, ps) && ps != []
    ensures |hs| == |ps| && Glue(hs, ps) == hs[0] + ps[0] + Glue(hs[1..], ps[1..])
    ensures PrefixOf(hs[0], ps[0]) && Prefixed(hs[1..], ps[1..])
  {
    hide PrefixOf;
  }

  lemma Parts(data: seq<byte>, off: nat, h: seq<byte>, p: seq<byte>, rest: seq<byte>)
    requires off <= |data| && data[off..] == h + p + rest
    ensures var start := off + |h|;
            && start + |p| <= |data|
            && data[off..start] == h && data[start..start + |p|] == p && data[start + |p|..] == rest
  {
    var d, start := data[off..], off + |h|;
    assert data[off..start] == d[..|h|] && data[start..start + |p|] == d[|h|..|h| + |p|];
    assert data[start + |p|..] == d[|h| + |p|..];
  }

  lemma HeadAndTail(s: Packets)
    requires s != []
    ensures s == [s[0]] + s[1..]
  {
  }

  lemma HeadAccepted(data: seq<byte>, off: nat, h: seq<byte>, p: seq<byte>)
    requires PrefixOf(h, p) && off + |h| <= |data| && data[off..off + |h|] == h
    ensures h != [] && Header(data, off) == Ok((|p|, off + |h|))
  {
    HeaderIs(data, off, h);
  }

  lemma UnframeStep(data: seq<byte>, off: nat, len: nat, start: nat, hs: Packets, ps: Packets)
    requires off < |data| && Header(data, off) == Ok((len, start)) && start + len <= |data|
    requires Unframe(data, start + len) == Ok((hs, ps))
    ensures Unframe(data, off) == Ok(([data[off..start]] + hs, [data[start..start + len]] + ps))
  {
    hide Header;
  }

  /** Whatever is accepted is such a list. */
  lemma {:induction false} AcceptedIsGlue(data: seq<byte>, off: nat)
    requires off <= |data| && Unframe(data, off).Ok?
    ensures var (hs, ps) := Unframe(data, off).value;
            Prefixed(hs, ps) && data[off..] == Glue(hs, ps)
    decreases |data| - off
  {
    hide Header, Value, VarintAt, Unframe, Prefixed, PrefixOf, Glue;
    if off == |data| {
      NothingLeft(data);
    } else {
      var len, start, hs, ps := UnframeParts(data, off);
      AcceptedIsGlue(data, start + len);
      GlueGrows(data[off..start], data[start..start + len], hs, ps);
      Cut(data, off, start, start + len);
    }
  }

  lemma NothingLeft(data: seq<byte>)
    ensures Unframe(data, |data|) == Ok(([], [])) && Prefixed([], []) && data[|data|..] == [] == Glue([], [])
  {
  }

  lemma Cut(data: seq<byte>, a: nat, b: nat, c: nat)
    requires a <= b <= c <= |data|
    ensures data[a..] == data[a..b] + data[b..c] + data[c..]
  {
  }

  lemma UnframeParts(data: seq<byte>, off: nat) returns (len: nat, start: nat, hs: Packets, ps: Packets)
    requires off < |data| && Unframe(data, off).Ok?
    ensures Header(data, off) == Ok((len, start)) && off < start && start + len <= |data|
    ensures PrefixOf(data[off..start], data[start..start + len])
    ensures Unframe(data, start + len) == Ok((hs, ps))
    ensures Unframe(data, off) == Ok(([data[off..start]] + hs, [data[start..start + len]] + ps))
  {
    hide Header, PrefixOf;
    HeaderReads(data, off);
    len, start := Header(data, off).value.0, Header(data, off).value.1;
    hs, ps := Unframe(data, start + len).value.0, Unframe(data, start + len).value.1;
    HeaderIsPrefix(data[off..start], data[start..start + len]);
  }

  lemma HeaderIsPrefix(h: seq<byte>, p: seq<byte>)
    requires IsVarint(h) && |h| <= 5 && Value(h) % 0x1_0000_0000 == |p|
    ensures PrefixOf(h, p)
  {
  }

  lemma GlueGrows(h: seq<byte>, p: seq<byte>, hs: Packets, ps: Packets)
    requires PrefixOf(h, p) && Prefixed(hs, ps)
    ensures Prefixed([h] + hs, [p] + ps) && Glue([h] + hs, [p] + ps) == h + p + Glue(hs, ps)
  {
    hide PrefixOf;
    var gs, qs := [h] + hs, [p] + ps;
    assert gs[1..] == hs && qs[1..] == ps;
    forall i | 0 <= i < |qs|
      ensures PrefixOf(gs[i], qs[i])
    {
      assert i > 0 ==> gs[i] == hs[i - 1] && qs[i] == ps[i - 1];
    }
  }

  /** unframePackets accepts exactly the concatenations of prefixed packets. */
  lemma AcceptsExactly(data: seq<byte>, ps: Packets)
    ensures Unframed(data) == Ok(ps) <==> exists hs: Packets :: Prefixed(hs, ps) && data == Glue(hs, ps)
  {
    if Unframed(data) == Ok(ps) {
      AcceptedIsGlue(data, 0);
      assert data[0..] == data;
    }
    forall hs: Packets | Prefixed(hs, ps) && data == Glue(hs, ps)
      ensures Unframed(data) == Ok(ps)
    {
      assert data[0..] == data;
      GlueAccepted(data, 0, hs, ps);
    }
  }

  lemma HeadersPrefix(ps: Packets)
    requires Framable(ps)
    ensures Prefixed(Headers(ps), ps)
  {
    Word32();
    forall i | 0 <= i < |ps|
      ensures PrefixOf(Headers(ps)[i], ps[i])
    {
      Pow2Mono32();
      LebIsVarint(|ps[i]|);
      LebLength(|ps[i]|, 5);
    }
  }

  lemma Pow2Mono32()
    ensures Pow2(35) >= 0x1_0000_0000
  {
    Word32();
    Pow2Add(32, 3);
  }

  /** unframePackets undoes framePackets. */
  lemma UnframesFramed(ps: Packets)
    requires Framable(ps)
    ensures Unframed(Framed(ps)) == Ok(ps)
  {
    HeadersPrefix(ps);
    AcceptsExactly(Framed(ps), ps);
  }

  lemma {:induction false} GlueLength(hs: Packets, gs: Packets, ps: Packets)
    requires |hs| == |gs| == |ps| && forall i | 0 <= i < |ps| :: |hs[i]| <= |gs[i]|
    ensures |Glue(hs, ps)| <= |Glue(gs, ps)|
    ensures |Glue(hs, ps)| == |Glue(gs, ps)| ==> forall i | 0 <= i < |ps| :: |hs[i]| == |gs[i]|
  {
    if ps != [] {
      GlueLength(hs[1..], gs[1..], ps[1..]);
      if |Glue(hs, ps)| == |Glue(gs, ps)| {
        forall i | 0 <= i < |ps|
          ensures |hs[i]| == |gs[i]|
        {
          assert i > 0 ==> hs[i] == hs[1..][i - 1] && gs[i] == gs[1..][i - 1];
        }
      }
    }
  }

  /** Framing again what was accepted never takes more bytes, and gives the same bytes exactly when
      every prefix met was the one writeVarUInt emits. */
  lemma Reframe(data: seq<byte>)
    requires Unframe(data, 0).Ok?
    ensures var (hs, ps) := Unframe(data, 0).value;
            && Framable(ps)
            && |Framed(ps)| <= |data|
            && (Framed(ps) == data <==> hs == Headers(ps))
  {
    var (hs, ps) := Unframe(data, 0).value;
    AcceptedIsGlue(data, 0);
    assert data[0..] == data;
    var gs := Headers(ps);
    hide Value, VarintAt, Leb, Glue, Pow2;
    Word32();
    forall i | 0 <= i < |ps|
      ensures |gs[i]| <= |hs[i]| && |ps[i]| < 0x1_0000_0000
    {
      assert PrefixOf(hs[i], ps[i]);
      ShortestPrefix(hs[i], ps[i]);
    }
    GlueLength(gs, hs, ps);
    if Framed(ps) == data {
      GlueDetermines(gs, hs, ps);
    }
  }

  lemma ShortestPrefix(h: seq<byte>, p: seq<byte>)
    requires PrefixOf(h, p)
    ensures |Leb(|p|)| <= |h| && |p| < 0x1_0000_0000
  {
    Word32();
    Canonical(h, 32);
  }

  /** Packets glued behind prefixes of the same lengths determine the prefixes. */
  lemma {:induction false} GlueDetermines(hs: Packets, gs: Packets, ps: Packets)
    requires |hs| == |gs| == |ps| && forall i | 0 <= i < |ps| :: |hs[i]| == |gs[i]|
    requires Glue(hs, ps) == Glue(gs, ps)
    ensures hs == gs
  {
    if ps != [] {
      var h, g, p := hs[0], gs[0], ps[0];
      var a, b := Glue(hs[1..], ps[1..]), Glue(gs[1..], ps[1..]);
      assert h + p + a == g + p + b;
      assert h == (h + p + a)[..|h|] && g == (g + p + b)[..|h|];
      assert a == (h + p + a)[|h| + |p|..] && b == (g + p + b)[|h| + |p|..];
      GlueDetermines(hs[1..], gs[1..], ps[1..]);
      assert hs == [h] + hs[1..] && gs == [g] + gs[1..];
    }
  }

  // ---------- the C++ framing loops ----------

  method FramePackets(packets: Packets) returns (r: Result<seq<byte>, FramerError>)
    ensures r == if Framable(packets) then Ok(Framed(packets)) else Err(PacketTooLarge)
  {
    var out: seq<byte> := [];
    for i := 0 to |packets|
      invariant forall j | 0 <= j < i :: |packets[j]| < 0x1_0000_0000
      invariant out + Framed(packets[i..]) == Framed(packets)
    {
      var packet := packets[i];
      if |packet| > 0xFFFF_FFFF {
        return Err(PacketTooLarge);
      }
      Word32();
      assert packets[i..][0] == packet && packets[i..][1..] == packets[i + 1..];
      hide Leb, Framed;
      FramedStep(out, packets[i..]);
      out := WriteVarUInt(out, |packet|, 32);
      out := out + packet;
    }
    assert packets[|packets|..] == [];
    assert out + Framed([]) == out;
    return Ok(out);
  }

  lemma FramedStep(out: seq<byte>, ps: Packets)
    requires ps != []
    ensures out + Framed(ps) == out + Leb(|ps[0]|) + ps[0] + Framed(ps[1..])
  {
    assert Headers(ps)[1..] == Headers(ps[1..]);
  }

  method UnframePackets(framed: seq<byte>) returns (r: Result<Packets, FramerError>)
    ensures r == Unframed(framed)
  {
    hide Unframe, Value, VarLength, Pow2;
    var packets: Packets, off: nat := [], 0;
    AfterEnds(packets, framed);
    while off < |framed|
      invariant off <= |framed|
      invariant Unframed(framed) == After(packets, framed, off)
    {
      AfterStep(packets, framed, off);
      assert Header(framed, off).Ok? <==> ReadVar(framed, off, 5, 32).Got?;
      var read := ReadVarUInt(framed, off, 5, 32);
      match read {
        case OutOfRange(_) => return Err(VarOutOfRange);
        case TooBig(_) => return Err(VarTooBig);
        case Got(len, next) =>
          off := next;
          if off + len > |framed| {
            return Err(LengthExceedsBuffer);
          }
          packets := packets + [framed[off..off + len]];
          off := off + len;
      }
    }
    AfterEnds(packets, framed);
    return Ok(packets);
  }

  /** The packets so far, followed by those from the cursor on. */
  ghost function After(got: Packets, data: seq<byte>, off: nat): Result<Packets, FramerError>
    requires off <= |data|
  {
    match Unframe(data, off)
    case Err(e) => Err(e)
    case Ok((_, ps)) => Ok(got + ps)
  }

  lemma AfterEnds(got: Packets, data: seq<byte>)
    ensures After([], data, 0) == Unframed(data)
    ensures After(got, data, |data|) == Ok(got)
  {
    assert got + [] == got;
    if Unframe(data, 0).Ok? {
      var ps := Unframe(data, 0).value.1;
      assert [] + ps == ps;
    }
  }

  lemma AfterStep(got: Packets, data: seq<byte>, off: nat)
    requires off < |data|
    ensures match Header(data, off)
            case Err(e) => After(got, data, off) == Err(e)
            case Ok((len, start)) =>
              if start + len > |data| then After(got, data, off) == Err(LengthExceedsBuffer)
              else After(got, data, off) == After(got + [data[start..start + len]], data, start + len)
  {
    hide Header;
    match Header(data, off)
    case Err(_) =>
    case Ok((len, start)) =>
      if start + len <= |data| {
        match Unframe(data, start + len)
        case Err(_) =>
        case Ok((_, ps)) =>
          assert got + ([data[start..start + len]] + ps) == got + [data[start..start + len]] + ps;
      }
  }
}
