/** The server advertisement of src/server/ServerAdvertisement.cpp: the fields of a text between
    semicolons, five of them read as numbers the way parseInt of ECMAScript reads them. */
module Advertisement {
  import opened Wrappers
  import opened Bits
  import opened Utf8
  import opened Splitting

  /** A field's value. A number is the integer written, before strtod rounds it to a double; the sign
      is its own, as -0 is a double. */
  datatype Scalar = Undefined | Null | Text(text: Bytes) | NotANumber | Number(negative: bool, magnitude: nat)

  const SEMI: byte := 0x3B
  const PLUS: byte := 0x2B
  const MINUS: byte := 0x2D
  const ZERO: byte := 0x30

  // ---------- white space ----------

  /** The code points of WhiteSpace and LineTerminator of ECMAScript. */
  predicate WhitePoint(cp: nat) {
    || 0x09 <= cp <= 0x0D || cp == 0x20 || cp == 0xA0 || cp == 0x1680 || 0x2000 <= cp <= 0x200A
    || cp == 0x2028 || cp == 0x2029 || cp == 0x202F || cp == 0x205F || cp == 0x3000 || cp == 0xFEFF
  }

  /** How many bytes of white space begin a text, 0 for none. */
  function SpaceLength(s: Bytes): (n: nat)
    ensures n <= |s|
  {
    if s == [] then 0
    else if 0x09 <= s[0] <= 0x0D || s[0] == 0x20 then 1
    else if |s| >= 2 && s[0] == 0xC2 && s[1] == 0xA0 then 2
    else if |s| < 3 then 0
    else if s[0] == 0xE1 && s[1] == 0x9A && s[2] == 0x80 then 3
    else if s[0] == 0xE2 && s[1] == 0x80
            && (0x80 <= s[2] <= 0x8A || s[2] == 0xA8 || s[2] == 0xA9 || s[2] == 0xAF) then 3
    else if s[0] == 0xE2 && s[1] == 0x81 && s[2] == 0x9F then 3
    else if s[0] == 0xE3 && s[1] == 0x80 && s[2] == 0x80 then 3
    else if s[0] == 0xEF && s[1] == 0xBB && s[2] == 0xBF then 3
    else 0
  }

  /** The bytes taken are exactly the UTF-8 encoding of one white-space code point. */
  lemma SpaceExactly(s: Bytes, n: nat)
    requires 0 < n <= |s|
    ensures SpaceLength(s) == n <==> exists cp :: WhitePoint(cp) && s[..n] == Encode(cp)
  {
    if SpaceLength(s) == n {
      SpacePoint(s, n);
    }
    forall cp | WhitePoint(cp) && s[..n] == Encode(cp)
      ensures SpaceLength(s) == n
    {
      PointSpace(s, n, cp);
    }
  }

  lemma SpacePoint(s: Bytes, n: nat)
    requires 0 < n <= |s| && SpaceLength(s) == n
    ensures exists cp :: WhitePoint(cp) && s[..n] == Encode(cp)
  {
    var cp: int := if n == 1 then s[0] as int
                   else if n == 2 then 0xA0
                   else (s[0] - 0xE0) as int * 0x1000 + (s[1] - 0x80) as int * 0x40 + (s[2] - 0x80) as int;
    assert WhitePoint(cp) && s[..n] == Encode(cp);
  }

  lemma PointSpace(s: Bytes, n: nat, cp: nat)
    requires n <= |s| && WhitePoint(cp) && s[..n] == Encode(cp)
    ensures SpaceLength(s) == n
  {
    assert |Encode(cp)| == n && forall i | 0 <= i < n :: s[i] == s[..n][i] == Encode(cp)[i];
  }

  /** The text behind its white space. */
  function Trimmed(s: Bytes): (r: Bytes)
    ensures SpaceLength(r) == 0 && |r| <= |s|
    decreases |s|
  {
    if SpaceLength(s) == 0 then s else Trimmed(s[SpaceLength(s)..])
  }

  // ---------- numbers ----------

  /** digitValue: letters count on from ten; -1 for any other byte. */
  function DigitValue(c: byte): int {
    if 0x30 <= c <= 0x39 then c - 0x30
    else if 0x61 <= c <= 0x7A then c - 0x61 + 10
    else if 0x41 <= c <= 0x5A then c - 0x41 + 10
    else -1
  }

  const LOWER: Bytes := [0x30, 0x31, 0x32, 0x33, 0x34, 0x35, 0x36, 0x37, 0x38, 0x39, 0x61, 0x62, 0x63, 0x64, 0x65, 0x66]
  const UPPER: Bytes := [0x30, 0x31, 0x32, 0x33, 0x34, 0x35, 0x36, 0x37, 0x38, 0x39, 0x41, 0x42, 0x43, 0x44, 0x45, 0x46]

  /** The digits below sixteen: 0 to 9, then a to f in either case. */
  lemma DigitMeans(c: byte, v: nat)
    requires v < 16
    ensures DigitValue(c) == v <==> c == LOWER[v] || c == UPPER[v]
  {
  }

  predicate IsDigitOf(c: byte, radix: nat) {
    0 <= DigitValue(c) < radix
  }

  predicate AllDigits(ds: Bytes, radix: nat) {
    forall i | 0 <= i < |ds| :: IsDigitOf(ds[i], radix)
  }

  /** What a numeral stands for. */
  function NumeralValue(ds: Bytes, radix: nat): nat
    requires AllDigits(ds, radix)
  {
    if ds == [] then 0
    else
      assert IsDigitOf(ds[|ds| - 1], radix);
      NumeralValue(ds[..|ds| - 1], radix) * radix + DigitValue(ds[|ds| - 1])
  }

  /** How many digits begin a text. */
  function DigitCount(s: Bytes, radix: nat): (n: nat)
    ensures n <= |s| && AllDigits(s[..n], radix) && (n < |s| ==> !IsDigitOf(s[n], radix))
    decreases |s|
  {
    if s != [] && IsDigitOf(s[0], radix) then
      var n := 1 + DigitCount(s[1..], radix);
      assert forall i | 0 < i < n :: s[..n][i] == s[1..][..n - 1][i - 1];
      n
    else 0
  }

  predicate Signed(s: Bytes) {
    s != [] && (s[0] == PLUS || s[0] == MINUS)
  }

  predicate HexFront(s: Bytes) {
    |s| >= 2 && s[0] == ZERO && (s[1] == 0x78 || s[1] == 0x58)
  }

  function Unsigned(s: Bytes): Bytes {
    if Signed(s) then s[1..] else s
  }

  function Radix(u: Bytes): nat {
    if HexFront(u) then 16 else 10
  }

  function Numeral(u: Bytes): Bytes {
    if HexFront(u) then u[2..] else u
  }

  /** The scalar read from a text that is not empty. */
  function IntOf(s: Bytes): Scalar {
    var t := Trimmed(s);
    var u := Unsigned(t);
    var v, radix := Numeral(u), Radix(u);
    var n := DigitCount(v, radix);
    if n == 0 then NotANumber else Number(t != u && t[0] == MINUS, NumeralValue(v[..n], radix))
  }

  /** parseIntLikeJavaScript: the loops over white space and digits, and the optional sign and prefix. */
  method ParseInt(value: Bytes) returns (r: Scalar)
    ensures r == IntOf(value)
  {
    hide IntOf, DigitCount, NumeralValue, SpaceLength, DigitValue, Trimmed, Unsigned, Numeral, Radix, HexFront, Signed;
    var offset := 0;
    assert value[0..] == value;
    while SpaceLength(value[offset..]) != 0
      invariant offset <= |value| && Trimmed(value) == Trimmed(value[offset..])
      decreases |value| - offset
    {
      TrimStep(value, offset);
      offset := offset + SpaceLength(value[offset..]);
    }
    TrimEnd(value[offset..]);
    SignAt(value, offset);
    ghost var sign := offset;
    var negative := false;
    if offset < |value| && (value[offset] == PLUS || value[offset] == MINUS) {
      negative := value[offset] == MINUS;
      offset := offset + 1;
    }
    PrefixAt(value, offset);
    ghost var prefix := offset;
    var radix := 10;
    if offset + 1 < |value| && value[offset] == ZERO && (value[offset + 1] == 0x78 || value[offset + 1] == 0x58) {
      radix := 16;
      offset := offset + 2;
    }
    ghost var begin := offset;
    r := ReadDigits(value, offset, radix, negative);
    Assembled(value, sign, prefix, begin, begin + DigitCount(value[begin..], radix));
  }

  /** The digits from an offset on, behind a sign and a prefix. */
  method ReadDigits(value: Bytes, digitsBegin: nat, radix: nat, negative: bool) returns (r: Scalar)
    requires digitsBegin <= |value|
    ensures var end := digitsBegin + DigitCount(value[digitsBegin..], radix);
            && AllDigits(value[digitsBegin..end], radix)
            && r == if end == digitsBegin then NotANumber
                    else Number(negative, NumeralValue(value[digitsBegin..end], radix))
  {
    hide DigitCount, NumeralValue, DigitValue;
    var offset := digitsBegin;
    while offset < |value| && IsDigitOf(value[offset], radix)
      invariant digitsBegin <= offset <= |value|
      invariant DigitCount(value[digitsBegin..], radix) == offset - digitsBegin + DigitCount(value[offset..], radix)
    {
      CountStep(value, offset, radix);
      offset := offset + 1;
    }
    assert offset < |value| ==> value[offset..][0] == value[offset];
    CountEnd(value[offset..], radix);
    assert value[digitsBegin..][..offset - digitsBegin] == value[digitsBegin..offset];
    if offset == digitsBegin {
      return NotANumber;
    }
    return Number(negative, NumeralValue(value[digitsBegin..offset], radix));
  }

  lemma SignAt(s: Bytes, i: nat)
    requires i <= |s|
    ensures Unsigned(s[i..]) == if i < |s| && (s[i] == PLUS || s[i] == MINUS) then s[i + 1..] else s[i..]
  {
  }

  lemma PrefixAt(s: Bytes, i: nat)
    requires i <= |s|
    ensures var hex := i + 1 < |s| && s[i] == ZERO && (s[i + 1] == 0x78 || s[i + 1] == 0x58);
            Numeral(s[i..]) == (if hex then s[i + 2..] else s[i..]) && Radix(s[i..]) == if hex then 16 else 10
  {
  }

  /** What the places of the sign, of the prefix, and of both ends of the digits make of the text. */
  lemma Assembled(s: Bytes, sign: nat, prefix: nat, begin: nat, end: nat)
    requires sign <= prefix <= begin <= end <= |s| && prefix <= sign + 1
    requires Trimmed(s) == s[sign..] && Unsigned(s[sign..]) == s[prefix..] && Numeral(s[prefix..]) == s[begin..]
    requires DigitCount(s[begin..], Radix(s[prefix..])) == end - begin
    ensures AllDigits(s[begin..end], Radix(s[prefix..]))
    ensures IntOf(s) == if begin == end then NotANumber
                        else Number(prefix > sign && s[sign] == MINUS, NumeralValue(s[begin..end], Radix(s[prefix..])))
  {
    hide Trimmed, Unsigned, Numeral, Radix, DigitCount, NumeralValue, AllDigits;
    assert s[begin..][..end - begin] == s[begin..end];
    assert |s[sign..]| == |s| - sign && |s[prefix..]| == |s| - prefix;
  }

  lemma TrimStep(s: Bytes, i: nat)
    requires i <= |s| && SpaceLength(s[i..]) != 0
    ensures i + SpaceLength(s[i..]) <= |s| && Trimmed(s[i..]) == Trimmed(s[i + SpaceLength(s[i..])..])
  {
    hide SpaceLength;
    assert s[i..][SpaceLength(s[i..])..] == s[i + SpaceLength(s[i..])..];
  }

  lemma TrimEnd(s: Bytes)
    requires SpaceLength(s) == 0
    ensures Trimmed(s) == s
  {
  }

  lemma CountStep(s: Bytes, i: nat, radix: nat)
    requires i < |s| && IsDigitOf(s[i], radix)
    ensures DigitCount(s[i..], radix) == 1 + DigitCount(s[i + 1..], radix)
  {
    hide DigitValue;
    assert s[i..][1..] == s[i + 1..];
  }

  lemma CountEnd(s: Bytes, radix: nat)
    requires s == [] || !IsDigitOf(s[0], radix)
    ensures DigitCount(s, radix) == 0
  {
  }

  // ---------- which texts are numbers ----------

  function Flat(parts: seq<Bytes>): Bytes {
    if parts == [] then [] else parts[0] + Flat(parts[1..])
  }

  ghost predicate White(ws: seq<Bytes>) {
    forall i | 0 <= i < |ws| :: exists cp :: WhitePoint(cp) && ws[i] == Encode(cp)
  }

  /** White space, a sign or none, a prefix or none, digits, and whatever follows them. */
  datatype Written = Written(ws: seq<Bytes>, sign: Bytes, prefix: Bytes, digits: Bytes, rest: Bytes)

  function RadixOf(w: Written): nat {
    if w.prefix == [] then 10 else 16
  }

  ghost predicate Grammar(s: Bytes, w: Written) {
    && s == Flat(w.ws) + (w.sign + (w.prefix + (w.digits + w.rest)))
    && White(w.ws)
    && (w.sign == [] || w.sign == [PLUS] || w.sign == [MINUS])
    && (if w.prefix == [] then !HexFront(w.digits + w.rest) else w.prefix == [ZERO, 0x78] || w.prefix == [ZERO, 0x58])
    && w.digits != [] && AllDigits(w.digits, RadixOf(w))
    && (w.rest != [] ==> !IsDigitOf(w.rest[0], RadixOf(w)))
  }

  function WrittenValue(w: Written): Scalar
    requires AllDigits(w.digits, RadixOf(w))
  {
    Number(w.sign == [MINUS], NumeralValue(w.digits, RadixOf(w)))
  }

  /** The white space a text begins with, character by character. */
  function Spaces(s: Bytes): seq<Bytes>
    decreases |s|
  {
    var n := SpaceLength(s);
    if n == 0 then [] else [s[..n]] + Spaces(s[n..])
  }

  lemma {:induction false} SpacesTrimmed(s: Bytes)
    ensures s == Flat(Spaces(s)) + Trimmed(s) && White(Spaces(s))
    decreases |s|
  {
    hide SpaceLength, WhitePoint, Encode;
    var n := SpaceLength(s);
    if n > 0 {
      SpacesTrimmed(s[n..]);
      SpaceExactly(s, n);
      assert forall i | 0 < i < |Spaces(s)| :: Spaces(s)[i] == Spaces(s[n..])[i - 1];
      Concat3(s[..n], Flat(Spaces(s[n..])), Trimmed(s));
    }
  }

  lemma {:induction false} TrimmedFlat(ws: seq<Bytes>, x: Bytes)
    requires White(ws) && SpaceLength(x) == 0
    ensures Trimmed(Flat(ws) + x) == x
    decreases |ws|
  {
    hide SpaceLength, WhitePoint, Encode;
    if ws == [] {
      assert Flat(ws) + x == x;
    } else {
      var w, more := ws[0], Flat(ws[1..]) + x;
      Concat3(w, Flat(ws[1..]), x);
      var cp :| WhitePoint(cp) && w == Encode(cp);
      SomeBytes(cp);
      assert (w + more)[..|w|] == w && (w + more)[|w|..] == more;
      SpaceExactly(w + more, |w|);
      TrimmedFlat(ws[1..], x);
    }
  }

  lemma SomeBytes(cp: nat)
    requires WhitePoint(cp)
    ensures Encode(cp) != []
  {
  }

  lemma {:induction false} CountDigits(ds: Bytes, rest: Bytes, radix: nat)
    requires AllDigits(ds, radix) && (rest != [] ==> !IsDigitOf(rest[0], radix))
    ensures DigitCount(ds + rest, radix) == |ds|
    decreases |ds|
  {
    hide DigitValue;
    if ds == [] {
      assert ds + rest == rest;
    } else {
      assert IsDigitOf(ds[0], radix);
      assert forall i | 0 <= i < |ds| - 1 :: ds[1..][i] == ds[i + 1];
      assert (ds + rest)[1..] == ds[1..] + rest;
      CountDigits(ds[1..], rest, radix);
    }
  }

  /** The parts IntOf finds. */
  function Found(s: Bytes): Written {
    var t := Trimmed(s);
    var u := Unsigned(t);
    var v := Numeral(u);
    var n := DigitCount(v, Radix(u));
    Written(Spaces(s), t[..|t| - |u|], u[..|u| - |v|], v[..n], v[n..])
  }

  lemma FoundGrammar(s: Bytes)
    requires IntOf(s).Number?
    ensures Grammar(s, Found(s)) && WrittenValue(Found(s)) == IntOf(s)
  {
    hide Trimmed, Spaces, White, DigitCount, IsDigitOf, AllDigits, NumeralValue, Unsigned, Numeral, Radix, Flat,
      HexFront;
    SpacesTrimmed(s);
    SignPart(Trimmed(s));
    PrefixPart(Unsigned(Trimmed(s)));
    DigitPart(Numeral(Unsigned(Trimmed(s))), Radix(Unsigned(Trimmed(s))));
    FoundParts(s);
  }

  lemma DigitPart(v: Bytes, radix: nat)
    ensures var n := DigitCount(v, radix); v == v[..n] + v[n..] && (n < |v| ==> v[n..][0] == v[n])
  {
    hide DigitCount;
  }

  lemma FoundParts(s: Bytes)
    requires IntOf(s).Number?
    requires RadixOf(Found(s)) == Radix(Unsigned(Trimmed(s)))
    requires var t := Trimmed(s);
             var u := Unsigned(t);
             |u| <= |t| && (t[..|t| - |u|] == [MINUS] <==> t != u && t[0] == MINUS)
    ensures WrittenValue(Found(s)) == IntOf(s)
  {
    hide Trimmed, Spaces, DigitCount, NumeralValue, Unsigned, Numeral, Radix, RadixOf;
  }

  lemma SignPart(t: Bytes)
    ensures var u := Unsigned(t);
            && |u| <= |t| && var sign := t[..|t| - |u|];
            && t == sign + u && (sign == [] || sign == [PLUS] || sign == [MINUS])
            && (sign == [MINUS] <==> t != u && t[0] == MINUS)
  {
    if Signed(t) {
      assert t == [t[0]] + t[1..];
    }
  }

  lemma PrefixPart(u: Bytes)
    ensures var v := Numeral(u);
            && |v| <= |u| && var prefix := u[..|u| - |v|];
            && u == prefix + v
            && (if prefix == [] then v == u && !HexFront(u) && Radix(u) == 10
                else (prefix == [ZERO, 0x78] || prefix == [ZERO, 0x58]) && Radix(u) == 16)
  {
    if HexFront(u) {
      assert u == [u[0], u[1]] + u[2..];
    }
  }

  lemma NoSpaceFront(x: Bytes)
    requires x != [] && (x[0] == PLUS || x[0] == MINUS || IsDigitOf(x[0], 16))
    ensures SpaceLength(x) == 0
  {
  }

  lemma GrammarFound(s: Bytes, w: Written)
    requires Grammar(s, w)
    ensures IntOf(s) == WrittenValue(w)
  {
    hide Trimmed, White, DigitCount, NumeralValue, SpaceLength;
    var v, radix := w.digits + w.rest, RadixOf(w);
    var u := w.prefix + v;
    var t := w.sign + u;
    assert IsDigitOf(w.digits[0], radix);
    assert IsDigitOf(u[0], 16);
    NoSpaceFront(t);
    TrimmedFlat(w.ws, t);
    assert Unsigned(t) == u && Numeral(u) == v && Radix(u) == radix;
    CountDigits(w.digits, w.rest, radix);
    assert v[..|w.digits|] == w.digits;
  }

  /** A text is read as a number exactly when it is white space, a sign or none, a hexadecimal prefix
      or none, and a digit of that radix, with anything behind the last digit; the number is the
      numeral's value. Everything else is NaN. */
  lemma ReadsExactly(s: Bytes, negative: bool, magnitude: nat)
    ensures IntOf(s) == Number(negative, magnitude)
            <==> exists w :: Grammar(s, w) && WrittenValue(w) == Number(negative, magnitude)
    ensures IntOf(s).Number? || IntOf(s) == NotANumber
  {
    if IntOf(s) == Number(negative, magnitude) {
      FoundGrammar(s);
    }
    hide Grammar, IntOf;
    forall w | Grammar(s, w) && WrittenValue(w) == Number(negative, magnitude)
      ensures IntOf(s) == Number(negative, magnitude)
    {
      GrammarFound(s, w);
    }
  }

  // ---------- the advertisement ----------

  /** splitSemicolon: the loop from one delimiter to the next. */
  method SplitSemicolon(value: Bytes) returns (parts: seq<Bytes>)
    ensures parts == Split(value, SEMI)
  {
    parts := [];
    var begin := 0;
    assert value[0..] == value;
    while true
      invariant begin <= |value| && Split(value, SEMI) == parts + Split(value[begin..], SEMI)
      decreases |value| - begin
    {
      var delimiter := FindFrom(value, begin);
      if delimiter.None? {
        SplitOne(value[begin..], SEMI);
        parts := parts + [value[begin..]];
        return;
      }
      var part := value[begin..delimiter.value];
      SplitMore(part, value[delimiter.value + 1..], SEMI);
      assert value[begin..] == part + [SEMI] + value[delimiter.value + 1..];
      parts := parts + [part];
      begin := delimiter.value + 1;
    }
  }

  /** std::string_view::find of the semicolon. */
  function FindFrom(value: Bytes, begin: nat): (r: Option<nat>)
    requires begin <= |value|
    ensures r.None? ==> SEMI !in value[begin..]
    ensures r.Some? ==> begin <= r.value < |value| && value[r.value] == SEMI && SEMI !in value[begin..r.value]
    decreases |value| - begin
  {
    if begin == |value| then None
    else if value[begin] == SEMI then Some(begin)
    else
      var r := FindFrom(value, begin + 1);
      assert value[begin..] == [value[begin]] + value[begin + 1..];
      assert r.Some? ==> value[begin..r.value] == [value[begin]] + value[begin + 1..r.value];
      r
  }

  /** The fields of an advertisement, in the order of the text. */
  datatype Fields = Fields(
    header: Scalar, motd: Scalar, protocol: Scalar, version: Scalar, playersOnline: Scalar, playersMax: Scalar,
    serverId: Scalar, levelName: Scalar, gamemode: Scalar, gamemodeId: Scalar, portV4: Scalar, portV6: Scalar)

  function Part(parts: seq<Bytes>, i: nat): Scalar {
    if i < |parts| then Text(parts[i]) else Undefined
  }

  /** A numeric field: missing stays undefined, an empty one becomes null. */
  function NumberPart(parts: seq<Bytes>, i: nat): Scalar {
    if i >= |parts| then Undefined else if parts[i] == [] then Null else IntOf(parts[i])
  }

  function FieldsOf(str: Bytes): Fields {
    var parts := Split(str, SEMI);
    Fields(
      Part(parts, 0), Part(parts, 1), Part(parts, 2), Part(parts, 3), NumberPart(parts, 4), NumberPart(parts, 5),
      Part(parts, 6), Part(parts, 7), Part(parts, 8), NumberPart(parts, 9), NumberPart(parts, 10),
      NumberPart(parts, 11))
  }

  /** A part of the text as it stands, undefined where the text has fewer. */
  ghost predicate IsPart(v: Scalar, parts: seq<Bytes>, i: nat) {
    if i < |parts| then v.Text? && v.text == parts[i] else v.Undefined?
  }

  /** A part read as a number: null when it is empty. */
  ghost predicate IsNumber(v: Scalar, parts: seq<Bytes>, i: nat) {
    if i < |parts| then (if parts[i] == [] then v.Null? else v == IntOf(parts[i])) else v.Undefined?
  }

  /** For parts without semicolons put together with semicolons, the fields are those parts in the
      order of the format: edition, name, protocol, version, players, most players, server id, level,
      game mode, its number, and the two ports. */
  lemma FieldsInOrder(parts: seq<Bytes>)
    requires parts != [] && forall p | p in parts :: 0x3B !in p
    ensures var f := FieldsOf(Join(parts, 0x3B));
            && IsPart(f.header, parts, 0) && IsPart(f.motd, parts, 1) && IsPart(f.protocol, parts, 2)
            && IsPart(f.version, parts, 3) && IsNumber(f.playersOnline, parts, 4) && IsNumber(f.playersMax, parts, 5)
            && IsPart(f.serverId, parts, 6) && IsPart(f.levelName, parts, 7) && IsPart(f.gamemode, parts, 8)
            && IsNumber(f.gamemodeId, parts, 9) && IsNumber(f.portV4, parts, 10) && IsNumber(f.portV6, parts, 11)
  {
    hide IntOf, SplitFrom, Join;
    JoinSplits(parts, SEMI);
  }

  class ServerAdvertisement {
    var fields: Fields

    /** With the default fields, the clock among them; fromString keeps none of these. */
    constructor ()
    {
      fields := *;
    }

    /** fromString: every field of the old advertisement is replaced. */
    method FromString(str: Bytes)
      modifies this
      ensures fields == FieldsOf(str)
    {
      hide IntOf, SplitFrom;
      var parts := SplitSemicolon(str);
      fields := Fields(
        Part(parts, 0), Part(parts, 1), Part(parts, 2), Part(parts, 3), Part(parts, 4), Part(parts, 5),
        Part(parts, 6), Part(parts, 7), Part(parts, 8), Part(parts, 9), Part(parts, 10), Part(parts, 11));
      var online := Numeric(fields.playersOnline);
      var most := Numeric(fields.playersMax);
      var mode := Numeric(fields.gamemodeId);
      var v4 := Numeric(fields.portV4);
      var v6 := Numeric(fields.portV6);
      fields := fields.(playersOnline := online, playersMax := most, gamemodeId := mode, portV4 := v4, portV6 := v6);
    }
  }

  /** One round of the loop over the numeric fields. */
  method Numeric(value: Scalar) returns (r: Scalar)
    requires value.Undefined? || value.Text?
    ensures r == if value.Undefined? then Undefined else if value.text == [] then Null else IntOf(value.text)
  {
    if value.Undefined? {
      return value;
    }
    if value.text == [] {
      return Null;
    }
    r := ParseInt(value.text);
  }

  method FromServerName(str: Bytes) returns (r: Fields)
    ensures r == FieldsOf(str)
  {
    var advertisement := new ServerAdvertisement();
    advertisement.FromString(str);
    return advertisement.fields;
  }
}
