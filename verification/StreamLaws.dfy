/** What holds of every run of a BinaryStream: typed values come back as they were written, reads
    never move the cursor back or past the end, and what is read writes back as the same bytes. */
module StreamLaws {
  import opened Wrappers
  import opened Bits
  import opened Words
  import opened Leb128
  import opened BinaryStreams

  datatype Item = Item(val: Val, kind: Kind)

  predicate Typed(items: seq<Item>) {
    forall i | 0 <= i < |items| :: HasType(items[i].val, items[i].kind)
  }

  function Encodings(items: seq<Item>): seq<byte>
    requires Typed(items)
  {
    if items == [] then [] else Encoding(items[0].val, items[0].kind) + Encodings(items[1..])
  }

  function Writes(items: seq<Item>): (r: seq<Op>)
    requires Typed(items)
    ensures |r| == |items| && forall op | op in r :: Callable(op)
  {
    if items == [] then [] else [Op.Write(items[0].val, items[0].kind)] + Writes(items[1..])
  }

  function Reads(items: seq<Item>): (r: seq<Op>)
    requires Typed(items)
    ensures |r| == |items| && forall op | op in r :: Callable(op)
  {
    if items == [] then [] else [Op.Read(items[0].kind)] + Reads(items[1..])
  }

  function Values(items: seq<Item>): (r: seq<Reply>)
    ensures |r| == |items|
  {
    if items == [] then [] else [Returned(items[0].val)] + Values(items[1..])
  }

  // ---------- writing and reading back ----------

  lemma StepsOne(s: State, op: Op, rest: seq<Op>)
    requires Callable(op) && forall o | o in rest :: Callable(o)
    ensures forall o | o in [op] + rest :: Callable(o)
    ensures var (a, s') := Step(s, op);
            var (b, t) := Steps(s', rest);
            Steps(s, [op] + rest) == ([a] + b, t)
  {
    hide Step, Callable;
    assert ([op] + rest)[1..] == rest;
  }

  lemma {:induction false} WritesAppend(s: State, items: seq<Item>)
    requires Typed(items)
    ensures Steps(s, Writes(items)).1 == s.(buf := s.buf + Encodings(items))
    ensures forall r | r in Steps(s, Writes(items)).0 :: r.Done?
    decreases |items|
  {
    hide HasType, Encoding, Steps;
    if items == [] {
      NoSteps(s);
    } else {
      var v, k := items[0].val, items[0].kind;
      StepsOne(s, Op.Write(v, k), Writes(items[1..]));
      WritesAppend(s.(buf := s.buf + Encoding(v, k)), items[1..]);
      Concat3(s.buf, Encoding(v, k), Encodings(items[1..]));
    }
  }

  lemma NoSteps(s: State)
    ensures Steps(s, []) == ([], s) && s.(buf := s.buf + []) == s
  {
    assert s.buf + [] == s.buf;
  }

  /** The part of the buffer in front of the cursor. */
  ghost predicate Ahead(s: State, part: seq<byte>, rest: seq<byte>) {
    s.off <= |s.buf| && s.buf[s.off..] == part + rest
  }

  function Moved(s: State, n: nat): State {
    s.(off := s.off + n)
  }

  lemma AheadSplit(s: State, a: seq<byte>, b: seq<byte>, rest: seq<byte>)
    requires Ahead(s, a + b, rest)
    ensures Ahead(s, a, b + rest) && Ahead(Moved(s, |a|), b, rest)
  {
    Concat3(a, b, rest);
    AheadTake(s, a, b + rest);
  }

  lemma AheadTake(s: State, a: seq<byte>, rest: seq<byte>)
    requires Ahead(s, a, rest)
    ensures |a| <= Remaining(s) && Take(s, |a|) == a == s.buf[s.off..s.off + |a|]
    ensures s.buf[s.off + |a|..] == rest
  {
    var d := s.buf[s.off..];
    assert s.buf[s.off..s.off + |a|] == d[..|a|];
    assert s.buf[s.off + |a|..] == d[|a|..];
  }

  lemma VarintBack(s: State, v: nat, wide: bool, rest: seq<byte>)
    requires Ahead(s, Leb(v), rest) && v < Pow2(if wide then 64 else 32)
    ensures ReadVarint(s, wide) == (Ok(v), Moved(s, |Leb(v)|))
  {
    hide Leb, Pow2, ReadVar;
    AheadTake(s, Leb(v), rest);
    LebReads(s.buf, s.off, v, Window(wide), if wide then 64 else 32);
  }

  lemma WordBack(s: State, v: Val, k: Kind, rest: seq<byte>)
    requires k.Word? && HasType(v, k) && Ahead(s, Encoding(v, k), rest)
    ensures ReadWord(s, k) == (Returned(v), Moved(s, |Encoding(v, k)|))
  {
    var u := Pattern(v, k);
    CastsBack(v, k);
    hide HasType, BytesLE, ValueLE, Pow2, Cast;
    AheadTake(s, BytesLE(u, k.size), rest);
    ValueOfBytesLE(u, k.size);
  }

  lemma VarBack(s: State, v: Val, k: Kind, rest: seq<byte>)
    requires k.Var? && HasType(v, k) && Ahead(s, Encoding(v, k), rest)
    ensures ReadKind(s, k) == (Returned(v), Moved(s, |Encoding(v, k)|))
  {
    CastsBack(v, k);
    hide Leb, Cast, Pow2, ReadVarint, HasType, Ahead;
    VarintBack(s, Pattern(v, k), k.wide, rest);
  }

  lemma TextBack(s: State, v: Val, rest: seq<byte>)
    requires HasType(v, Text) && Ahead(s, Encoding(v, Text), rest)
    ensures ReadText(s) == (Returned(v), Moved(s, |Encoding(v, Text)|))
  {
    hide Leb, Pow2, ReadVarint, Ahead;
    var n := |v.bytes|;
    Word32();
    AheadSplit(s, Leb(n), v.bytes, rest);
    VarintBack(s, n, false, v.bytes + rest);
    AheadTake(Moved(s, |Leb(n)|), v.bytes, rest);
  }

  /** A value just ahead of the cursor is read as it was written. */
  lemma ReadOne(s: State, v: Val, k: Kind, rest: seq<byte>)
    requires HasType(v, k) && Ahead(s, Encoding(v, k), rest)
    ensures ReadKind(s, k) == (Returned(v), Moved(s, |Encoding(v, k)|))
  {
    match k
    case Word(_, _) =>
      hide HasType, Encoding, ReadWord, Ahead;
      WordBack(s, v, k, rest);
    case Var(_, _) =>
      hide HasType, Encoding, ReadKind, Ahead;
      VarBack(s, v, k, rest);
    case Text =>
      hide HasType, Encoding, ReadText, Ahead;
      TextBack(s, v, rest);
    case Raw(_) =>
      AheadTake(s, v.bytes, rest);
  }

  lemma TypedIsLegit(v: Val, k: Kind)
    requires HasType(v, k)
    ensures Legit(k)
  {
  }

  lemma {:induction false} ReadsBack(s: State, items: seq<Item>, rest: seq<byte>)
    requires Typed(items) && Ahead(s, Encodings(items), rest)
    ensures Steps(s, Reads(items)) == (Values(items), Moved(s, |Encodings(items)|))
    decreases |items|
  {
    hide HasType, Encoding, Steps, ReadKind, Ahead;
    if items == [] {
      NoSteps(s);
    } else {
      var v, k, tail := items[0].val, items[0].kind, items[1..];
      AheadSplit(s, Encoding(v, k), Encodings(tail), rest);
      ReadOne(s, v, k, Encodings(tail) + rest);
      TypedIsLegit(v, k);
      StepsOne(s, Op.Read(k), Reads(tail));
      ReadsBack(Moved(s, |Encoding(v, k)|), tail, rest);
    }
  }

  /** Any typed values written to a fresh stream and read with the same types come back, and the
      stream is then at its end. */
  lemma FreshRoundTrip(items: seq<Item>)
    requires Typed(items)
    ensures var written := Steps(State([], 0), Writes(items)).1;
            var (replies, end) := Steps(written, Reads(items));
            replies == Values(items) && end.buf == written.buf && Remaining(end) == 0
  {
    hide Steps, Encodings, Typed;
    var e := Encodings(items);
    WritesAppend(State([], 0), items);
    assert [] + e == e && e[0..] == e + [];
    ReadsBack(State(e, 0), items, []);
  }

  // ---------- the cursor ----------

  /** One read leaves the bytes alone and moves the cursor forward, never past the end; a word or
      raw bytes that are not all there leave it in place. */
  lemma ReadMoves(s: State, k: Kind)
    requires Legit(k)
    ensures var (r, t) := ReadKind(s, k);
            && t.buf == s.buf && s.off <= t.off && (s.off <= |s.buf| ==> t.off <= |t.buf|)
            && (r.Failed? && (k.Word? || k.Raw?) ==> t == s)
            && !r.Done?
  {
    match k
    case Word(_, _) =>
    case Raw(_) =>
    case Var(wide, _) => VarintMoves(s, wide);
    case Text => VarintMoves(s, false);
  }

  lemma VarintMoves(s: State, wide: bool)
    ensures var (r, t) := ReadVarint(s, wide);
            && t.buf == s.buf && s.off <= t.off && (s.off <= |s.buf| ==> t.off <= |t.buf|)
  {
    hide Pow2, Value;
    ReadExactly(s.buf, s.off, Window(wide), if wide then 64 else 32);
  }

  lemma {:induction false} ReadsMove(s: State, kinds: seq<Op>)
    requires s.off <= |s.buf| && forall op | op in kinds :: op.Read? && Callable(op)
    ensures var t := Steps(s, kinds).1;
            t.buf == s.buf && s.off <= t.off <= |t.buf|
    decreases |kinds|
  {
    hide ReadKind;
    if kinds != [] {
      ReadMoves(s, kinds[0].kind);
      ReadsMove(Step(s, kinds[0]).1, kinds[1..]);
    }
  }

  // ---------- writing what was read ----------

  lemma VarintReads(s: State, wide: bool)
    requires ReadVarint(s, wide).0.Ok?
    ensures var (r, t) := ReadVarint(s, wide);
            var bits := if wide then 64 else 32;
            && s.off < t.off <= |s.buf| && t.buf == s.buf && r.value < Pow2(bits)
            && |Leb(r.value)| <= t.off - s.off
  {
    hide Pow2, Value, Leb, VarintAt;
    var bits := if wide then 64 else 32;
    ReadExactly(s.buf, s.off, Window(wide), bits);
    var (r, t) := ReadVarint(s, wide);
    Canonical(s.buf[s.off..t.off], bits);
  }

  lemma WordThenWrite(s: State, k: Kind)
    requires k.Word? && Legit(k) && s.off <= |s.buf| && ReadWord(s, k).0.Returned?
    ensures var (r, t) := ReadWord(s, k);
            HasType(r.val, k) && s.off <= t.off <= |s.buf| && Encoding(r.val, k) == s.buf[s.off..t.off]
  {
    hide BytesLE, ValueLE, Pow2, Cast, Pattern, HasType;
    var bs := Take(s, k.size);
    BoundLE(bs);
    BytesOfValueLE(bs);
    PatternOfCast(ValueLE(bs), k);
    assert bs == s.buf[s.off..s.off + k.size];
  }

  lemma TextThenWrite(s: State)
    requires s.off <= |s.buf| && ReadText(s).0.Returned?
    ensures var (r, t) := ReadText(s);
            HasType(r.val, Text) && s.off <= t.off <= |s.buf| && |Encoding(r.val, Text)| <= t.off - s.off
  {
    hide Leb, ReadVarint, Pow2;
    VarintReads(s, false);
    Word32();
  }

  lemma VarThenWrite(s: State, k: Kind)
    requires k.Var? && s.off <= |s.buf| && ReadKind(s, k).0.Returned?
    ensures var (r, t) := ReadKind(s, k);
            HasType(r.val, k) && s.off <= t.off <= |s.buf| && |Encoding(r.val, k)| <= t.off - s.off
  {
    hide Leb, ReadVarint, Pow2, Cast, Pattern, HasType;
    VarintReads(s, k.wide);
    PatternOfCast(ReadVarint(s, k.wide).0.value, k);
  }

  /** Whatever is read has the type it was read with. Written again, words and raw bytes give the
      bytes they came from, and varints and strings never take more. */
  lemma ReadThenWrite(s: State, k: Kind)
    requires Legit(k) && s.off <= |s.buf| && ReadKind(s, k).0.Returned?
    ensures var (r, t) := ReadKind(s, k);
            && HasType(r.val, k) && s.off <= t.off <= |s.buf|
            && |Encoding(r.val, k)| <= t.off - s.off
            && (k.Word? || k.Raw? ==> Encoding(r.val, k) == s.buf[s.off..t.off])
  {
    match k
    case Word(_, _) =>
      hide HasType, Encoding, ReadWord;
      WordThenWrite(s, k);
    case Raw(_) =>
    case Var(_, _) =>
      hide HasType, Encoding, ReadKind;
      VarThenWrite(s, k);
    case Text =>
      hide HasType, Encoding, ReadText;
      TextThenWrite(s);
  }

  // ---------- the bytes of a value, and the value of bytes ----------

  /** A number is written in two's complement: its little-endian bytes, or its varint groups, stand for
      it modulo the width; a string is written behind its length. */
  lemma WrittenBytes(v: Val, k: Kind)
    requires HasType(v, k)
    ensures var b := Encoding(v, k);
            match k
            case Word(size, _) =>
              |b| == size && ValueLE(b) == if v.value < 0 then v.value + Pow2(8 * size) else v.value
            case Var(wide, _) =>
              var n := if wide then 64 else 32;
              IsVarint(b) && Value(b) == if v.value < 0 then v.value + Pow2(n) else v.value
            case Text => b == Leb(|v.bytes|) + v.bytes
            case Raw(_) => b == v.bytes
  {
    hide BytesLE, ValueLE, Leb, Value, VarintAt, Pow2;
    if k.Word? {
      ValueOfBytesLE(Pattern(v, k), k.size);
    } else if k.Var? {
      LebIsVarint(Pattern(v, k));
    }
  }

  /** A word is read as the value of the next bytes, less a whole modulus exactly when a signed type's
      top bit is set. */
  lemma WordRead(s: State, k: Kind)
    requires k.Word? && Legit(k)
    ensures var (r, s') := ReadKind(s, k);
            if s.off + k.size <= |s.buf| then
              && r.Returned? && r.val.Num? && s' == s.(off := s.off + k.size)
              && var u := ValueLE(s.buf[s.off..s.off + k.size]);
                 r.val.value == if k.how.Signed? && 2 * u >= Pow2(8 * k.size) then u - Pow2(8 * k.size) else u
            else r == Failed(NotEnoughBytes) && s' == s
  {
    hide ValueLE, Pow2;
  }

  /** A varint is read from at most ten bytes as 64 bits, or from at most five as 32, and a signed one is
      less a whole modulus exactly when its top bit is set. */
  lemma VarRead(s: State, wide: bool, signed: bool)
    ensures var (r, s') := ReadKind(s, Var(wide, signed));
            var n := if wide then 64 else 32;
            match (if wide then ReadVar(s.buf, s.off, 10, 64) else ReadVar(s.buf, s.off, 5, 32))
            case Got(u, next) =>
              && s' == State(s.buf, next) && r.Returned? && r.val.Num?
              && r.val.value == if signed && 2 * u >= Pow2(n) then u - Pow2(n) else u
            case OutOfRange(next) => r == Failed(NotEnoughBytes) && s' == State(s.buf, next)
            case TooBig(next) => r == Failed(VarTooBig) && s' == State(s.buf, next)
  {
    hide ReadVar, Pow2;
  }

  /** The steps that read nothing. */
  lemma OtherSteps(s: State, pos: nat, bytes: seq<byte>, v: Val, k: Kind)
    requires HasType(v, k)
    ensures Step(s, Seek(pos)) == if pos <= |s.buf| then (Done, State(s.buf, pos)) else (Failed(SeekOutOfRange), s)
    ensures Step(s, Reset) == (Done, State(s.buf, 0))
    ensures Step(s, Assign(bytes)) == (Done, State(bytes, s.off))
    ensures Step(s, Op.Write(v, k)) == (Done, State(s.buf + Encoding(v, k), s.off))
    ensures |bytes| >= 0x1_0000_0000 ==>
              Step(s, Op.Write(BinaryStreams.Bytes(bytes), Text)) == (Failed(StringTooLarge), s)
  {
    hide Encoding;
  }

  /** A string is refused exactly when its length cannot be read, or is more than is left behind it; in
      the second case the cursor stays behind the length. */
  lemma TextRead(s: State)
    ensures var (r, s') := ReadKind(s, Text);
            match ReadVar(s.buf, s.off, 5, 32)
            case Got(len, next) =>
              if next + len <= |s.buf| then
                r == Returned(BinaryStreams.Bytes(s.buf[next..next + len])) && s' == State(s.buf, next + len)
              else r == Failed(StringExceedsBuffer) && s' == State(s.buf, next)
            case OutOfRange(next) => r == Failed(NotEnoughBytes) && s' == State(s.buf, next)
            case TooBig(next) => r == Failed(VarTooBig) && s' == State(s.buf, next)
  {
    hide ReadVar;
    var read := ReadVar(s.buf, s.off, 5, 32);
    if read.Got? && read.next <= |s.buf| {
      assert s.buf[read.next..read.next] == [];
    }
  }
}
