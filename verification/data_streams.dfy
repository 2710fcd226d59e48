/** The `DataOutputStream` / `DataInputStream` encodings the saved database
    format is built from: big-endian 32-bit ints and the length-prefixed
    modified UTF-8 of `writeUTF`. A stream being read is the sequence of
    bytes not yet consumed; every read returns what it consumed and the rest. */
module DataStreams {
  import opened Wrappers
  import opened Expressions
  import opened Errors
  import Sequences

  const TWO_32: int := 0x1_0000_0000

  /** The unsigned 32-bit pattern of a Java int. */
  function Unsigned32(x: Int32): (u: nat)
    ensures u < TWO_32
    ensures x >= 0 ==> u == x
  {
    if x < 0 then x + TWO_32 else x
  }

  /** `writeInt`: the four bytes of the value, high byte first. */
  function WriteInt(x: Int32): (b: seq<Byte>)
    ensures |b| == 4
  {
    var u := Unsigned32(x);
    [u / 0x100_0000, (u / 0x1_0000) % 0x100, (u / 0x100) % 0x100, u % 0x100]
  }

  function BigEndian(b0: Byte, b1: Byte, b2: Byte, b3: Byte): nat {
    b0 as int * 0x100_0000 + b1 as int * 0x1_0000 + b2 as int * 0x100 + b3 as int
  }

  /** Base-256 digits, high digit first, put back together. */
  lemma Digits(u: nat)
    requires u < TWO_32
    ensures BigEndian(u / 0x100_0000, (u / 0x1_0000) % 0x100, (u / 0x100) % 0x100, u % 0x100) == u
  {
    var q1 := u / 0x100;
    var q2 := q1 / 0x100;
    var q3 := q2 / 0x100;
    assert u == q1 * 0x100 + u % 0x100;
    assert q1 == q2 * 0x100 + q1 % 0x100;
    assert q2 == q3 * 0x100 + q2 % 0x100;
    assert q2 == u / 0x1_0000;
    assert q3 == u / 0x100_0000;
  }

  /** `readInt`: four bytes, high byte first, as a two's-complement int; fewer
      than four bytes left is an end of file. */
  function ReadInt(b: seq<Byte>): (r: Result<(Int32, seq<Byte>), Error>)
    ensures r.Success? <==> |b| >= 4
    ensures r.Failure? ==> r.error == EndOfFile
    ensures r.Success? ==> r.value.1 == b[4..]
  {
    if |b| < 4 then Failure(EndOfFile)
    else
      var u := BigEndian(b[0], b[1], b[2], b[3]);
      Success((if u >= 0x8000_0000 then u - TWO_32 else u, b[4..]))
  }

  /** Reading back what `writeInt` wrote gives the same int, and leaves the
      bytes after it. */
  lemma IntRoundTrip(x: Int32, rest: seq<Byte>)
    ensures ReadInt(WriteInt(x) + rest) == Success((x, rest))
  {
    var u := Unsigned32(x);
    var b := WriteInt(x) + rest;
    assert b[4..] == rest;
    Digits(u);
    assert BigEndian(b[0], b[1], b[2], b[3]) == u;
  }

  /** The modified UTF-8 form of one char: `U+0001..U+007F` in one byte,
      `U+0000` and `U+0080..U+07FF` in two, everything else (surrogates
      included, each on its own) in three. */
  function ModifiedUtf8Char(c: CodeUnit): (b: seq<Byte>)
    ensures 1 <= |b| <= 3
  {
    if 0x0001 <= c <= 0x007F then [c]
    else if c > 0x07FF then [0xE0 + c / 0x1000, 0x80 + (c / 0x40) % 0x40, 0x80 + c % 0x40]
    else [0xC0 + c / 0x40, 0x80 + c % 0x40]
  }

  function ModifiedUtf8(s: JString): (b: seq<Byte>)
    ensures |s| <= |b| <= 3 * |s|
  {
    if |s| == 0 then [] else ModifiedUtf8Char(s[0]) + ModifiedUtf8(s[1..])
  }

  /** `writeUTF`: a two-byte length, then the modified UTF-8 bytes; an
      encoded length above 65535 is refused before anything is written. */
  function WriteUtf(s: JString): (r: Result<seq<Byte>, Error>)
    ensures r.Success? <==> |ModifiedUtf8(s)| <= 0xFFFF
    ensures r.Failure? ==> r.error == UtfDataFormat
    ensures r.Success? ==> |r.value| == 2 + |ModifiedUtf8(s)|
    ensures r.Success? ==> r.value == [|ModifiedUtf8(s)| / 0x100, |ModifiedUtf8(s)| % 0x100] + ModifiedUtf8(s)
  {
    var body := ModifiedUtf8(s);
    if |body| > 0xFFFF then Failure(UtfDataFormat)
    else Success([|body| / 0x100, |body| % 0x100] + body)
  }

  predicate IsContinuation(b: Byte) { 0x80 <= b < 0xC0 }

  /** The char loop of `readUTF` over exactly the announced bytes: the high
      four bits of each lead byte choose one, two or three bytes; a sequence
      cut off by the end, a bad continuation byte or a lead byte of the form
      `10xx` or `1111` is malformed. */
  function DecodeModified(b: seq<Byte>): (r: Result<JString, Error>)
    ensures r.Failure? ==> r.error == UtfDataFormat
    decreases |b|
  {
    if |b| == 0 then Success([])
    else
      var c := b[0];
      var group := c / 0x10;
      if group <= 7 then
        var rest :- DecodeModified(b[1..]);
        Success([c] + rest)
      else if group == 12 || group == 13 then
        if |b| < 2 || !IsContinuation(b[1]) then Failure(UtfDataFormat)
        else
          var rest :- DecodeModified(b[2..]);
          Success([(c % 0x20) * 0x40 + b[1] % 0x40] + rest)
      else if group == 14 then
        if |b| < 3 || !IsContinuation(b[1]) || !IsContinuation(b[2]) then Failure(UtfDataFormat)
        else
          var rest :- DecodeModified(b[3..]);
          Success([(c % 0x10) * 0x1000 + (b[1] % 0x40) * 0x40 + b[2] % 0x40] + rest)
      else Failure(UtfDataFormat)
  }

  /** `readUTF`: an unsigned two-byte length, then exactly that many bytes;
      too few bytes is an end of file, bytes that are not modified UTF-8 a
      format error. */
  function ReadUtf(b: seq<Byte>): (r: Result<(JString, seq<Byte>), Error>)
    ensures |b| < 2 ==> r == Failure(EndOfFile)
    ensures r.Failure? ==> r.error == EndOfFile || r.error == UtfDataFormat
    ensures r.Success? ==> |r.value.1| <= |b| - 2
    ensures |b| >= 2 && |b| - 2 < b[0] as int * 0x100 + b[1] as int ==> r == Failure(EndOfFile)
    ensures r.Success? ==>
      var n := b[0] as int * 0x100 + b[1] as int;
      n <= |b| - 2 && r.value.1 == b[2 + n..] && DecodeModified(b[2..2 + n]) == Success(r.value.0)
  {
    if |b| < 2 then Failure(EndOfFile)
    else
      var length := b[0] as int * 0x100 + b[1] as int;
      if |b| - 2 < length then Failure(EndOfFile)
      else
        var s :- DecodeModified(b[2..2 + length]);
        Success((s, b[2 + length..]))
  }

  /** One char's modified UTF-8 decodes back to that char. */
  lemma {:induction false} DecodeModifiedOfChar(c: CodeUnit, rest: seq<Byte>)
    ensures DecodeModified(ModifiedUtf8Char(c) + rest) ==
      (match DecodeModified(rest) case Success(t) => Success([c] + t) case Failure(e) => Failure(e))
  {
    if 0x0001 <= c <= 0x007F {
      Sequences.DropPrefix([c], rest);
    } else if c > 0x07FF {
      DecodeThreeBytes(c, rest);
    } else {
      DecodeTwoBytes(c, rest);
    }
  }

  lemma {:induction false} DecodeTwoBytes(c: CodeUnit, rest: seq<Byte>)
    requires c == 0 || 0x0080 <= c <= 0x07FF
    ensures DecodeModified([0xC0 + c / 0x40, 0x80 + c % 0x40] + rest) ==
      (match DecodeModified(rest) case Success(t) => Success([c] + t) case Failure(e) => Failure(e))
  {
    TwoByteFields(c);
    DecodeLeadTwo(0xC0 + c / 0x40, 0x80 + c % 0x40, rest);
  }

  lemma TwoByteFields(c: CodeUnit)
    requires c == 0 || 0x0080 <= c <= 0x07FF
    ensures var x, y := 0xC0 + c / 0x40, 0x80 + c % 0x40;
      x < 0x100 && (x / 0x10 == 12 || x / 0x10 == 13) && IsContinuation(y) && (x % 0x20) * 0x40 + y % 0x40 == c
  {
    var hi, lo := c / 0x40, c % 0x40;
    assert c == hi * 0x40 + lo && hi < 0x20;
    assert (0xC0 + hi) % 0x20 == hi && (0x80 + lo) % 0x40 == lo;
  }

  /** A two-byte group decodes to one char, then the rest. */
  lemma {:induction false} DecodeLeadTwo(x: Byte, y: Byte, rest: seq<Byte>)
    requires x / 0x10 == 12 || x / 0x10 == 13
    requires IsContinuation(y)
    ensures DecodeModified([x, y] + rest) ==
      (match DecodeModified(rest) case Success(t) => Success([(x % 0x20) * 0x40 + y % 0x40] + t) case Failure(e) => Failure(e))
  {
    Sequences.DropPrefix([x, y], rest);
  }

  lemma {:induction false} DecodeThreeBytes(c: CodeUnit, rest: seq<Byte>)
    requires c > 0x07FF
    ensures DecodeModified([0xE0 + c / 0x1000, 0x80 + (c / 0x40) % 0x40, 0x80 + c % 0x40] + rest) ==
      (match DecodeModified(rest) case Success(t) => Success([c] + t) case Failure(e) => Failure(e))
  {
    ThreeByteFields(c);
    DecodeLeadThree(0xE0 + c / 0x1000, 0x80 + (c / 0x40) % 0x40, 0x80 + c % 0x40, rest);
  }

  lemma ThreeByteFields(c: CodeUnit)
    requires c > 0x07FF
    ensures var x, y, z := 0xE0 + c / 0x1000, 0x80 + (c / 0x40) % 0x40, 0x80 + c % 0x40;
      x < 0x100 && x / 0x10 == 14 && IsContinuation(y) && IsContinuation(z) &&
      (x % 0x10) * 0x1000 + (y % 0x40) * 0x40 + z % 0x40 == c
  {
    var q, m, r := c / 0x1000, (c / 0x40) % 0x40, c % 0x40;
    assert c / 0x40 == q * 0x40 + m;
    assert c == q * 0x1000 + m * 0x40 + r;
    assert (0xE0 + q) % 0x10 == q && (0x80 + m) % 0x40 == m && (0x80 + r) % 0x40 == r;
  }

  /** A three-byte group decodes to one char, then the rest. */
  lemma {:induction false} DecodeLeadThree(x: Byte, y: Byte, z: Byte, rest: seq<Byte>)
    requires x / 0x10 == 14
    requires IsContinuation(y) && IsContinuation(z)
    ensures DecodeModified([x, y, z] + rest) ==
      (match DecodeModified(rest)
       case Success(t) => Success([(x % 0x10) * 0x1000 + (y % 0x40) * 0x40 + z % 0x40] + t)
       case Failure(e) => Failure(e))
  {
    Sequences.DropPrefix([x, y, z], rest);
  }

  /** `readUTF` returns exactly the string `writeUTF` wrote, and leaves what
      follows it unread. */
  lemma {:induction false} ModifiedUtf8RoundTrip(s: JString)
    ensures DecodeModified(ModifiedUtf8(s)) == Success(s)
  {
    if |s| > 0 {
      ModifiedUtf8RoundTrip(s[1..]);
      DecodeModifiedOfChar(s[0], ModifiedUtf8(s[1..]));
      assert [s[0]] + s[1..] == s;
    }
  }

  lemma UtfRoundTrip(s: JString, rest: seq<Byte>)
    requires WriteUtf(s).Success?
    ensures ReadUtf(WriteUtf(s).value + rest) == Success((s, rest))
  {
    var body := ModifiedUtf8(s);
    var b := WriteUtf(s).value + rest;
    assert b[0] as int * 0x100 + b[1] as int == |body|;
    assert b[2..2 + |body|] == body;
    assert b[2 + |body|..] == rest;
    ModifiedUtf8RoundTrip(s);
  }
}
