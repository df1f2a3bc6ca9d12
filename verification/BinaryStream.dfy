/** BinaryStream (src/BinaryStream.cpp): a cursor over an owned byte vector or over a borrowed one
    that is copied at the first write. Floats are their raw bit patterns. */
module BinaryStreams {
  import opened Wrappers
  import opened Bits
  import opened Words
  import opened Leb128

  datatype StreamError =
    | ViewOutOfRange | SeekOutOfRange | NotEnoughBytes | VarTooBig | StringExceedsBuffer | StringTooLarge

  // ---------- typed values ----------

  datatype How = Unsigned | Signed | Float

  /** The types the stream reads and writes: 8- to 64-bit little-endian words, 32- and 64-bit
      varints, length-prefixed strings and raw bytes. */
  datatype Kind =
    | Word(size: nat, how: How)
    | Var(wide: bool, signed: bool)
    | Text
    | Raw(len: nat)

  datatype Val = Num(value: int) | Bytes(bytes: seq<byte>)

  predicate Legit(k: Kind) {
    k.Word? ==> k.size == 4 || k.size == 8 || ((k.size == 1 || k.size == 2) && !k.how.Float?)
  }

  function Width(k: Kind): nat
    requires k.Word? || k.Var?
  {
    match k
    case Word(size, _) => 8 * size
    case Var(wide, _) => if wide then 64 else 32
  }

  predicate IsSigned(k: Kind) {
    (k.Word? && k.how.Signed?) || (k.Var? && k.signed)
  }

  /** The values of a type; a string's length must fit its 32-bit prefix. */
  predicate HasType(v: Val, k: Kind) {
    match k
    case Text => v.Bytes? && |v.bytes| <= 0xFFFF_FFFF
    case Raw(len) => v.Bytes? && |v.bytes| == len
    case _ =>
      && Legit(k) && v.Num?
      && var m := Pow2(Width(k)) as int;
         if IsSigned(k) then 0 - m <= 2 * v.value < m else 0 <= v.value < m
  }

  /** static_cast from a signed to an unsigned type of `bits` bits. */
  function ToUnsigned(v: int, bits: nat): int {
    if v < 0 then v + Pow2(bits) else v
  }

  /** static_cast from an unsigned to a signed type of `bits` bits. */
  function ToSigned(u: nat, bits: nat): int {
    if 2 * u >= Pow2(bits) then u - Pow2(bits) else u
  }

  function Cast(u: nat, k: Kind): Val
    requires k.Word? || k.Var?
  {
    Num(if IsSigned(k) then ToSigned(u, Width(k)) else u)
  }

  /** The unsigned word that is written for a number. */
  function Pattern(v: Val, k: Kind): (u: nat)
    requires (k.Word? || k.Var?) && HasType(v, k)
    ensures u < Pow2(Width(k))
  {
    ToUnsigned(v.value, Width(k))
  }

  /** Casting back and forth loses nothing. */
  lemma CastsBack(v: Val, k: Kind)
    requires (k.Word? || k.Var?) && HasType(v, k)
    ensures Cast(Pattern(v, k), k) == v
  {
  }

  lemma PatternOfCast(u: nat, k: Kind)
    requires (k.Word? || k.Var?) && Legit(k) && u < Pow2(Width(k))
    ensures HasType(Cast(u, k), k) && Pattern(Cast(u, k), k) == u
  {
  }

  /** The bytes a write appends. */
  function Encoding(v: Val, k: Kind): seq<byte>
    requires HasType(v, k)
  {
    match k
    case Word(size, _) => BytesLE(Pattern(v, k), size)
    case Var(_, _) => Leb(Pattern(v, k))
    case Text => Leb(|v.bytes|) + v.bytes
    case Raw(_) => v.bytes
  }

  // ---------- the stream as a value ----------

  datatype State = State(buf: seq<byte>, off: nat)

  datatype Op =
    | Read(kind: Kind)
    | Write(val: Val, kind: Kind)
    | Seek(pos: nat)
    | Reset
    | Assign(bytes: seq<byte>)  // a caller's change through the mutable buffer()

  datatype Reply = Done | Returned(val: Val) | Failed(error: StreamError)

  function Remaining(s: State): nat {
    if s.off > |s.buf| then 0 else |s.buf| - s.off
  }

  function Window(wide: bool): nat {
    if wide then 10 else 5
  }

  function Take(s: State, n: nat): seq<byte>
    requires n <= Remaining(s)
  {
    if n == 0 then [] else s.buf[s.off..s.off + n]
  }

  function ReadWord(s: State, k: Kind): (Reply, State)
    requires k.Word?
  {
    if Remaining(s) < k.size then (Failed(NotEnoughBytes), s)
    else (Returned(Cast(ValueLE(Take(s, k.size)), k)), s.(off := s.off + k.size))
  }

  function ReadVarint(s: State, wide: bool): (Result<nat, StreamError>, State) {
    match ReadVar(s.buf, s.off, Window(wide), if wide then 64 else 32)
    case Got(v, next) => (Ok(v), s.(off := next))
    case OutOfRange(next) => (Err(NotEnoughBytes), s.(off := next))
    case TooBig(next) => (Err(VarTooBig), s.(off := next))
  }

  function ReadText(s: State): (Reply, State) {
    var (len, s') := ReadVarint(s, false);
    if len.Err? then (Failed(len.error), s')
    else if len.value > Remaining(s') then (Failed(StringExceedsBuffer), s')
    else (Returned(Bytes(Take(s', len.value))), s'.(off := s'.off + len.value))
  }

  function ReadKind(s: State, k: Kind): (Reply, State) {
    match k
    case Word(_, _) => ReadWord(s, k)
    case Var(wide, _) =>
      var (r, s') := ReadVarint(s, wide);
      (if r.Ok? then Returned(Cast(r.value, k)) else Failed(r.error), s')
    case Text => ReadText(s)
    case Raw(len) =>
      if Remaining(s) < len then (Failed(NotEnoughBytes), s)
      else (Returned(Bytes(Take(s, len))), s.(off := s.off + len))
  }

  /** What callers can pass: the C++ types guarantee it, except for the length of a string. */
  predicate Callable(op: Op) {
    match op
    case Read(k) => Legit(k)
    case Write(v, k) => HasType(v, k) || (k.Text? && v.Bytes?)
    case _ => true
  }

  function Step(s: State, op: Op): (Reply, State)
    requires Callable(op)
  {
    match op
    case Read(k) => ReadKind(s, k)
    case Write(v, k) =>
      if HasType(v, k) then (Done, s.(buf := s.buf + Encoding(v, k))) else (Failed(StringTooLarge), s)
    case Seek(pos) => if pos > |s.buf| then (Failed(SeekOutOfRange), s) else (Done, s.(off := pos))
    case Reset => (Done, s.(off := 0))
    case Assign(bytes) => (Done, s.(buf := bytes))
  }

  function Steps(s: State, ops: seq<Op>): (r: (seq<Reply>, State))
    requires forall op | op in ops :: Callable(op)
    ensures |r.0| == |ops|
    decreases |ops|
  {
    if ops == [] then ([], s)
    else
      var (a, s') := Step(s, ops[0]);
      var (rest, s'') := Steps(s', ops[1..]);
      ([a] + rest, s'')
  }

  /** The operations that take the stream's own copy of the bytes. */
  predicate Stores(op: Op) {
    op.Assign? || (op.Write? && HasType(op.val, op.kind))
  }

  // ---------- the C++ class ----------

  /** A std::vector<uint8_t> that a stream may borrow. */
  class Vector {
    var bytes: seq<byte>

    constructor (bs: seq<byte>)
      ensures bytes == bs
    {
      bytes := bs;
    }
  }

  class BinaryStream {
    var data: seq<byte>
    var view: Vector?
    var offset: nat

    constructor (bytes: seq<byte>)
      ensures view == null && Abs() == State(bytes, 0)
    {
      data := bytes;
      view := null;
      offset := 0;
    }

    constructor Viewing(source: Vector, start: nat)
      ensures view == source && Abs() == State(source.bytes, start)
    {
      data := [];
      view := source;
      offset := start;
    }

    /** readableBuffer() */
    function Readable(): seq<byte>
      reads this, view
    {
      if view != null then view.bytes else data
    }

    ghost function Abs(): State
      reads this, view
    {
      State(Readable(), offset)
    }

    /** remaining(): the cursor and it make up the buffer, unless the buffer shrank below the cursor; it is
        the length of the longest raw read that succeeds. */
    function RemainingBytes(): (r: nat)
      reads this, view
      ensures offset <= |Readable()| ==> offset + r == |Readable()|
      ensures offset > |Readable()| ==> r == 0
      ensures forall n: nat :: Step(Abs(), Read(Raw(n))).0.Returned? <==> n <= r
    {
      if offset > |Readable()| then 0 else |Readable()| - offset
    }

    predicate Eof()
      reads this, view
      ensures Eof() <==> Remaining(Abs()) == 0
    {
      offset >= |Readable()|
    }

    /** writableBuffer(): the borrowed bytes are copied before the first write. */
    method Own()
      modifies this
      ensures view == null && Abs() == old(Abs())
    {
      if view != null {
        data := view.bytes;
        view := null;
      }
    }

    method Append(bytes: seq<byte>)
      modifies this
      ensures view == null && Abs() == old(Abs()).(buf := old(Abs()).buf + bytes)
    {
      Own();
      data := data + bytes;
    }

    /** readU8, readU16LE, readU32LE, readU64LE and the casts and copies built on them */
    method ReadFixed(k: Kind) returns (r: Reply)
      requires k.Word? && Legit(k)
      modifies this`offset
      ensures (r, Abs()) == ReadWord(old(Abs()), k)
    {
      if RemainingBytes() < k.size {
        return Failed(NotEnoughBytes);
      }
      var u := ReadLE(Readable(), offset, k.size);
      offset := offset + k.size;
      return Returned(Cast(u, k));
    }

    method ReadUnsigned(wide: bool) returns (r: Result<nat, StreamError>)
      modifies this`offset
      ensures (r, Abs()) == ReadVarint(old(Abs()), wide)
    {
      var read := ReadVarUInt(Readable(), offset, Window(wide), if wide then 64 else 32);
      offset := read.next;
      match read {
        case Got(v, _) => return Ok(v);
        case OutOfRange(_) => return Err(NotEnoughBytes);
        case TooBig(_) => return Err(VarTooBig);
      }
    }

    method ReadString() returns (r: Reply)
      modifies this`offset
      ensures (r, Abs()) == ReadText(old(Abs()))
    {
      hide ReadVarint;
      var len := ReadUnsigned(false);
      if len.Err? {
        return Failed(len.error);
      }
      if len.value > RemainingBytes() {
        return Failed(StringExceedsBuffer);
      }
      if len.value == 0 {
        return Returned(Bytes([]));
      }
      r := Returned(Bytes(Readable()[offset..offset + len.value]));
      offset := offset + len.value;
    }

    method ReadBytes(len: nat) returns (r: Reply)
      modifies this`offset
      ensures (r, Abs()) == ReadKind(old(Abs()), Raw(len))
    {
      if RemainingBytes() < len {
        return Failed(NotEnoughBytes);
      }
      r := Returned(Bytes(if len == 0 then [] else Readable()[offset..offset + len]));
      offset := offset + len;
    }

    method WriteValue(v: Val, k: Kind) returns (r: Reply)
      requires Callable(Write(v, k))
      modifies this
      ensures (r, Abs()) == Step(old(Abs()), Write(v, k))
      ensures view == if HasType(v, k) then null else old(view)
    {
      hide BytesLE, Leb, Pow2, HasType;
      match k {
        case Word(size, _) =>
          var bytes := WriteLE([], Pattern(v, k), size);
          assert [] + BytesLE(Pattern(v, k), size) == BytesLE(Pattern(v, k), size);
          Append(bytes);
        case Var(wide, _) =>
          SevenFits(k);
          var bytes := WriteVarUInt([], Pattern(v, k), Width(k));
          assert [] + Leb(Pattern(v, k)) == Leb(Pattern(v, k));
          Append(bytes);
        case Text =>
          TextFits(v);
          if |v.bytes| > 0xFFFF_FFFF {
            return Failed(StringTooLarge);
          }
          Word32();
          var prefix := WriteVarUInt([], |v.bytes|, 32);
          assert [] + Leb(|v.bytes|) == Leb(|v.bytes|);
          Concat3(Abs().buf, prefix, v.bytes);
          Append(prefix);
          Append(v.bytes);
        case Raw(_) =>
          RawFits(v, k);
          Append(v.bytes);
      }
      return Done;
    }

    method Perform(op: Op) returns (r: Reply)
      requires Callable(op)
      modifies this
      ensures (r, Abs()) == Step(old(Abs()), op)
      ensures view == if Stores(op) then null else old(view)
    {
      hide ReadWord, ReadVarint, ReadText, HasType, Encoding;
      match op {
        case Read(k) =>
          match k {
            case Word(_, _) => r := ReadFixed(k);
            case Var(wide, _) =>
              var u := ReadUnsigned(wide);
              r := if u.Ok? then Returned(Cast(u.value, k)) else Failed(u.error);
            case Text => r := ReadString();
            case Raw(len) => r := ReadBytes(len);
          }
        case Write(v, k) => r := WriteValue(v, k);
        case Seek(pos) =>
          if pos > |Readable()| {
            return Failed(SeekOutOfRange);
          }
          offset := pos;
          return Done;
        case Reset =>
          offset := 0;
          return Done;
        case Assign(bytes) =>
          Own();
          data := bytes;
          return Done;
      }
    }

    method Run(ops: seq<Op>) returns (replies: seq<Reply>)
      requires forall op | op in ops :: Callable(op)
      modifies this
      ensures (replies, Abs()) == Steps(old(Abs()), ops)
      ensures view == if exists op | op in ops :: Stores(op) then null else old(view)
    {
      replies := [];
      ghost var start := Abs();
      assert ops[0..] == ops && [] + Steps(start, ops).0 == Steps(start, ops).0;
      for i := 0 to |ops|
        invariant Steps(start, ops) == Joined(replies, Abs(), ops[i..])
        invariant view == if exists op | op in ops[..i] :: Stores(op) then null else old(view)
      {
        hide Step, Steps, Stores;
        StepsUnfold(Abs(), ops[i..]);
        var r := Perform(ops[i]);
        assert ops[..i + 1] == ops[..i] + [ops[i]];
        assert ops[i..][0] == ops[i] && ops[i..][1..] == ops[i + 1..];
        assert ops[i] in ops[..i + 1];
        JoinOne(replies, r, Abs(), ops[i + 1..]);
        replies := replies + [r];
      }
      assert ops[|ops|..] == [] && ops[..|ops|] == ops;
      assert replies + [] == replies;
    }
  }

  lemma SevenFits(k: Kind)
    requires k.Var?
    ensures 7 <= Width(k)
  {
  }

  lemma TextFits(v: Val)
    ensures HasType(v, Text) <==> v.Bytes? && |v.bytes| <= 0xFFFF_FFFF
  {
  }

  lemma RawFits(v: Val, k: Kind)
    requires k.Raw? && HasType(v, k)
    ensures v.Bytes?
  {
  }

  ghost function Joined(got: seq<Reply>, s: State, ops: seq<Op>): (seq<Reply>, State)
    requires forall op | op in ops :: Callable(op)
  {
    (got + Steps(s, ops).0, Steps(s, ops).1)
  }

  lemma StepsUnfold(s: State, ops: seq<Op>)
    requires ops != [] && forall op | op in ops :: Callable(op)
    ensures Steps(s, ops) == Joined([Step(s, ops[0]).0], Step(s, ops[0]).1, ops[1..])
  {
    hide Step;
  }

  lemma JoinOne(got: seq<Reply>, r: Reply, s: State, ops: seq<Op>)
    requires forall op | op in ops :: Callable(op)
    ensures got + Joined([r], s, ops).0 == Joined(got + [r], s, ops).0
    ensures Joined([r], s, ops).1 == Joined(got + [r], s, ops).1
  {
  }

  /** Over any run of reads, writes, seeks, resets and outside changes, a stream that borrows a
      vector answers as one that copied it, ends in the same state, and leaves the vector alone. It
      copies only if the run stores something. */
  method ViewAndCopy(source: Vector, start: nat, ops: seq<Op>)
    returns (viewing: BinaryStream, copying: BinaryStream, a: seq<Reply>, b: seq<Reply>)
    requires start <= |source.bytes| && forall op | op in ops :: Callable(op)
    ensures a == b && viewing.Abs() == copying.Abs()
    ensures source.bytes == old(source.bytes)
    ensures (forall op | op in ops :: !Stores(op)) ==> viewing.view == source
  {
    viewing := new BinaryStream.Viewing(source, start);
    copying := new BinaryStream(source.bytes);
    var r := copying.Perform(Seek(start));
    a := viewing.Run(ops);
    b := copying.Run(ops);
  }

  /** view(): refuses a start past the end. */
  method OpenView(source: Vector, start: nat) returns (r: Result<BinaryStream, StreamError>)
    ensures r.Ok? <==> start <= |source.bytes|
    ensures r.Ok? ==> fresh(r.value) && r.value.view == source && r.value.Abs() == State(source.bytes, start)
    ensures r.Err? ==> r.error == ViewOutOfRange
  {
    if start > |source.bytes| {
      return Err(ViewOutOfRange);
    }
    var s := new BinaryStream.Viewing(source, start);
    return Ok(s);
  }
}
