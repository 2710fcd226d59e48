/** UTF-16 strings, code points and the UTF-8 byte forms the wrapper hands
    to the engine: the RFC 3629 (section 3) encoding of one code point, a
    strict decoder for it, and the JDK's `String.getBytes(UTF_8)`.

    Java builds these values with `|`, `>>` and `&` on disjoint bit fields;
    on non-negative numbers those are `+`, division and remainder by powers
    of two, which is how they are written here. */
module Unicode {
  import opened Wrappers
  import opened Expressions
  import Sequences

  /** A Unicode code point. */
  type CodePoint = x: int | 0 <= x <= 0x10FFFF

  predicate IsHighSurrogate(c: int) { 0xD800 <= c <= 0xDBFF }
  predicate IsLowSurrogate(c: int) { 0xDC00 <= c <= 0xDFFF }
  predicate IsSurrogate(c: int) { 0xD800 <= c <= 0xDFFF }

  /** A code point UTF-8 may carry: anything outside the surrogate range. */
  predicate IsScalar(cp: CodePoint) { !IsSurrogate(cp) }

  /** The code point of a surrogate pair (section 2.2 of RFC 2781). */
  function ToCodePoint(hi: CodeUnit, lo: CodeUnit): (cp: CodePoint)
    requires IsHighSurrogate(hi) && IsLowSurrogate(lo)
    ensures 0x10000 <= cp
  {
    (hi - 0xD800) * 0x400 + (lo - 0xDC00) + 0x10000
  }

  /** A high surrogate at `i` immediately followed by a low one. */
  predicate PairAt(s: JString, i: int) {
    0 <= i && i + 1 < |s| && IsHighSurrogate(s[i]) && IsLowSurrogate(s[i + 1])
  }

  /** The surrogate at `i`, if any, belongs to a pair. */
  predicate UnitWellPlaced(s: JString, i: int)
    requires 0 <= i < |s|
  {
    (IsHighSurrogate(s[i]) ==> PairAt(s, i)) && (IsLowSurrogate(s[i]) ==> PairAt(s, i - 1))
  }

  /** Every surrogate of `s` belongs to a pair. */
  predicate WellFormed(s: JString) {
    forall i :: 0 <= i < |s| ==> UnitWellPlaced(s, i)
  }

  /** The UTF-16 form of one code point: one unit, or a surrogate pair. */
  function Utf16Of(cp: CodePoint): (u: JString)
    requires IsScalar(cp)
    ensures |u| == 1 <==> cp < 0x10000
    ensures |u| == 1 ==> !IsSurrogate(u[0]) && u[0] == cp
    ensures |u| == 2 ==> IsHighSurrogate(u[0]) && IsLowSurrogate(u[1]) && ToCodePoint(u[0], u[1]) == cp
  {
    if cp < 0x10000 then [cp]
    else [0xD800 + (cp - 0x10000) / 0x400, 0xDC00 + (cp - 0x10000) % 0x400]
  }

  /** A surrogate pair is the UTF-16 form of the code point it combines to. */
  lemma PairRoundTrip(hi: CodeUnit, lo: CodeUnit)
    requires IsHighSurrogate(hi) && IsLowSurrogate(lo)
    ensures IsScalar(ToCodePoint(hi, lo)) && Utf16Of(ToCodePoint(hi, lo)) == [hi, lo]
  {
    var cp := ToCodePoint(hi, lo);
    assert cp - 0x10000 == (hi - 0xD800) * 0x400 + (lo - 0xDC00);
    assert (cp - 0x10000) / 0x400 == hi - 0xD800;
    assert (cp - 0x10000) % 0x400 == lo - 0xDC00;
  }

  /** A UTF-8 continuation byte, `10xxxxxx`. */
  predicate IsContinuation(b: Byte) { 0x80 <= b < 0xC0 }

  /** The RFC 3629 section 3 encoding of one code point: the lead byte
      carries the length and the high bits, each continuation byte six bits. */
  function Utf8Bytes(cp: CodePoint): (b: seq<Byte>)
    ensures 1 <= |b| <= 4
    ensures |b| == 1 <==> cp <= 0x7F
    ensures |b| == 2 <==> 0x80 <= cp <= 0x7FF
    ensures |b| == 4 <==> cp >= 0x10000
    ensures forall k :: 1 <= k < |b| ==> IsContinuation(b[k])
  {
    if cp <= 0x7F then [cp]
    else if cp <= 0x7FF then [0xC0 + cp / 0x40, 0x80 + cp % 0x40]
    else if cp <= 0xFFFF then
      [0xE0 + cp / 0x1000, 0x80 + (cp / 0x40) % 0x40, 0x80 + cp % 0x40]
    else
      [0xF0 + cp / 0x40000, 0x80 + (cp / 0x1000) % 0x40, 0x80 + (cp / 0x40) % 0x40, 0x80 + cp % 0x40]
  }

  /** Reads one code point from the front of `b`, refusing overlong forms,
      surrogates, values above U+10FFFF and truncated or broken sequences. */
  function DecodeFirst(b: seq<Byte>): (r: Option<(CodePoint, nat)>)
    ensures r.Some? ==> 1 <= r.value.1 <= |b| && IsScalar(r.value.0)
  {
    if |b| == 0 then None
    else if b[0] < 0x80 then Some((b[0], 1))
    else if 0xC0 <= b[0] < 0xE0 then
      if |b| < 2 || !IsContinuation(b[1]) then None
      else
        var cp := (b[0] as int - 0xC0) * 0x40 + (b[1] as int - 0x80);
        if cp < 0x80 then None else Some((cp, 2))
    else if 0xE0 <= b[0] < 0xF0 then
      if |b| < 3 || !IsContinuation(b[1]) || !IsContinuation(b[2]) then None
      else
        var cp := (b[0] as int - 0xE0) * 0x1000 + (b[1] as int - 0x80) * 0x40 + (b[2] as int - 0x80);
        if cp < 0x800 || IsSurrogate(cp) then None else Some((cp, 3))
    else if 0xF0 <= b[0] < 0xF8 then
      if |b| < 4 || !IsContinuation(b[1]) || !IsContinuation(b[2]) || !IsContinuation(b[3]) then None
      else
        var cp := (b[0] as int - 0xF0) * 0x40000 + (b[1] as int - 0x80) * 0x1000
                  + (b[2] as int - 0x80) * 0x40 + (b[3] as int - 0x80);
        if cp < 0x10000 || cp > 0x10FFFF then None else Some((cp, 4))
    else None
  }

  /** Six-bit digits: `x` is its high part followed by its low six bits. */
  lemma SixBits(x: nat)
    ensures x == (x / 0x40) * 0x40 + x % 0x40 && 0 <= x % 0x40 < 0x40
  {
  }

  /** The decoder reads back exactly the code point that was encoded, and
      consumes exactly its bytes. */
  lemma {:induction false} DecodeFirstOfEncoded(cp: CodePoint, rest: seq<Byte>)
    requires IsScalar(cp)
    ensures DecodeFirst(Utf8Bytes(cp) + rest) == Some((cp, |Utf8Bytes(cp)|))
  {
    if cp <= 0x7F {
    } else if cp <= 0x7FF {
      DecodeTwo(cp, rest);
    } else if cp <= 0xFFFF {
      DecodeThree(cp, rest);
    } else {
      DecodeFour(cp, rest);
    }
  }

  lemma {:induction false} DecodeTwo(cp: CodePoint, rest: seq<Byte>)
    requires 0x80 <= cp <= 0x7FF
    ensures DecodeFirst([0xC0 + cp / 0x40, 0x80 + cp % 0x40] + rest) == Some((cp, 2))
  {
    var b := [0xC0 + cp / 0x40, 0x80 + cp % 0x40] + rest;
    SixBits(cp);
    assert (b[0] as int - 0xC0) * 0x40 + (b[1] as int - 0x80) == cp;
  }

  lemma {:induction false} DecodeThree(cp: CodePoint, rest: seq<Byte>)
    requires 0x800 <= cp <= 0xFFFF && !IsSurrogate(cp)
    ensures DecodeFirst([0xE0 + cp / 0x1000, 0x80 + (cp / 0x40) % 0x40, 0x80 + cp % 0x40] + rest) == Some((cp, 3))
  {
    var q, m, r := cp / 0x1000, (cp / 0x40) % 0x40, cp % 0x40;
    var b := [0xE0 + q, 0x80 + m, 0x80 + r] + rest;
    SixBits(cp);
    SixBits(cp / 0x40);
    assert cp / 0x40 / 0x40 == q;
    assert cp == q * 0x1000 + m * 0x40 + r;
    assert (b[0] as int - 0xE0) * 0x1000 + (b[1] as int - 0x80) * 0x40 + (b[2] as int - 0x80) == cp;
  }

  lemma {:induction false} DecodeFour(cp: CodePoint, rest: seq<Byte>)
    requires 0x10000 <= cp <= 0x10FFFF
    ensures DecodeFirst([0xF0 + cp / 0x40000, 0x80 + (cp / 0x1000) % 0x40, 0x80 + (cp / 0x40) % 0x40, 0x80 + cp % 0x40] + rest)
      == Some((cp, 4))
  {
    var q, m1, m2, r := cp / 0x40000, (cp / 0x1000) % 0x40, (cp / 0x40) % 0x40, cp % 0x40;
    var b := [0xF0 + q, 0x80 + m1, 0x80 + m2, 0x80 + r] + rest;
    SixBits(cp);
    SixBits(cp / 0x40);
    SixBits(cp / 0x1000);
    assert cp / 0x40 / 0x40 == cp / 0x1000;
    assert cp / 0x1000 / 0x40 == q;
    assert cp == q * 0x40000 + m1 * 0x1000 + m2 * 0x40 + r;
    assert (b[0] as int - 0xF0) * 0x40000 + (b[1] as int - 0x80) * 0x1000
           + (b[2] as int - 0x80) * 0x40 + (b[3] as int - 0x80) == cp;
  }

  /** Decodes a whole UTF-8 byte string into UTF-16, or fails on any malformed sequence. */
  function DecodeUtf8(b: seq<Byte>): Option<JString>
    decreases |b|
  {
    if |b| == 0 then Some([])
    else match DecodeFirst(b)
      case None => None
      case Some((cp, n)) =>
        match DecodeUtf8(b[n..])
        case None => None
        case Some(rest) => Some(Utf16Of(cp) + rest)
  }

  /** The byte the JDK's UTF-8 encoder writes for a surrogate it cannot pair. */
  const QuestionMark: Byte := 0x3F

  /** `String.getBytes(UTF_8)` from index `i` on: pairs become their 4-byte
      form, an unpaired surrogate becomes `'?'`, anything else its RFC 3629 form. */
  function JdkBytesFrom(s: JString, i: nat): seq<Byte>
    requires i <= |s|
    decreases |s| - i
  {
    if i == |s| then []
    else if PairAt(s, i) then Utf8Bytes(ToCodePoint(s[i], s[i + 1])) + JdkBytesFrom(s, i + 2)
    else if IsSurrogate(s[i]) then [QuestionMark] + JdkBytesFrom(s, i + 1)
    else Utf8Bytes(s[i]) + JdkBytesFrom(s, i + 1)
  }

  /** `String.getBytes(UTF_8)`. */
  function JdkGetBytes(s: JString): seq<Byte> {
    JdkBytesFrom(s, 0)
  }

  /** Decoding a code point's bytes followed by more bytes: that code
      point's UTF-16 form, then whatever the rest decodes to. */
  lemma {:induction false} DecodeUtf8Step(cp: CodePoint, tail: seq<Byte>)
    requires IsScalar(cp)
    ensures DecodeUtf8(Utf8Bytes(cp) + tail) ==
      (if DecodeUtf8(tail).Some? then Some(Utf16Of(cp) + DecodeUtf8(tail).value) else None)
  {
    DecodeFirstOfEncoded(cp, tail);
    var b := Utf8Bytes(cp) + tail;
    assert b[|Utf8Bytes(cp)|..] == tail;
  }

  lemma {:induction false} DecodeUtf8Prepend(cp: CodePoint, tail: seq<Byte>, u: JString, v: JString)
    requires IsScalar(cp) && Utf16Of(cp) == u && DecodeUtf8(tail) == Some(v)
    ensures DecodeUtf8(Utf8Bytes(cp) + tail) == Some(u + v)
  {
    DecodeUtf8Step(cp, tail);
  }

  /** At a code point boundary of a well-formed string, the JDK writes the
      bytes of the code point that starts there, then goes on after it. */
  lemma {:induction false} JdkBytesChunk(s: JString, i: nat) returns (cp: CodePoint, n: nat)
    requires WellFormed(s) && i < |s| && !IsLowSurrogate(s[i])
    ensures IsScalar(cp) && i + n <= |s| && Utf16Of(cp) == s[i..i + n]
    ensures JdkBytesFrom(s, i) == Utf8Bytes(cp) + JdkBytesFrom(s, i + n)
    ensures i + n < |s| ==> !IsLowSurrogate(s[i + n])
  {
    assert UnitWellPlaced(s, i);
    if PairAt(s, i) {
      cp, n := PairChunk(s, i);
    } else {
      cp, n := SingleChunk(s, i);
    }
    if i + n < |s| {
      assert UnitWellPlaced(s, i + n);
    }
  }

  lemma {:induction false} PairChunk(s: JString, i: nat) returns (cp: CodePoint, n: nat)
    requires PairAt(s, i)
    ensures n == 2 && IsScalar(cp) && i + n <= |s| && Utf16Of(cp) == s[i..i + n]
    ensures JdkBytesFrom(s, i) == Utf8Bytes(cp) + JdkBytesFrom(s, i + n)
  {
    cp, n := ToCodePoint(s[i], s[i + 1]), 2;
    PairRoundTrip(s[i], s[i + 1]);
    assert s[i..i + 2] == [s[i], s[i + 1]];
  }

  lemma {:induction false} SingleChunk(s: JString, i: nat) returns (cp: CodePoint, n: nat)
    requires i < |s| && !IsSurrogate(s[i])
    ensures n == 1 && IsScalar(cp) && i + n <= |s| && Utf16Of(cp) == s[i..i + n]
    ensures JdkBytesFrom(s, i) == Utf8Bytes(cp) + JdkBytesFrom(s, i + n)
  {
    cp, n := s[i], 1;
    assert s[i..i + 1] == [s[i]];
  }

  /** On a well-formed string the JDK's bytes from a code point boundary
      decode back to the rest of the string. */
  lemma {:induction false} JdkBytesDecodeFrom(s: JString, i: nat)
    requires WellFormed(s) && i <= |s|
    requires i < |s| ==> !IsLowSurrogate(s[i])
    ensures DecodeUtf8(JdkBytesFrom(s, i)) == Some(s[i..])
    decreases |s| - i
  {
    if i == |s| {
      assert JdkBytesFrom(s, i) == [];
      assert s[i..] == [];
      assert DecodeUtf8([]) == Some([]);
    } else {
      var cp, n := JdkBytesChunk(s, i);
      assert JdkBytesFrom(s, i) == Utf8Bytes(cp) + JdkBytesFrom(s, i + n);
      JdkBytesDecodeFrom(s, i + n);
      Sequences.SliceSplit(s, i, i + n);
      assert s[i..] == s[i..i + n] + s[i + n..];
      DecodeUtf8Prepend(cp, JdkBytesFrom(s, i + n), s[i..i + n], s[i + n..]);
    }
  }

  /** Round trip: decoding `getBytes(UTF_8)` of a well-formed string gives it back. */
  lemma JdkBytesRoundTrip(s: JString)
    requires WellFormed(s)
    ensures DecodeUtf8(JdkGetBytes(s)) == Some(s)
  {
    if 0 < |s| {
      assert UnitWellPlaced(s, 0);
    }
    JdkBytesDecodeFrom(s, 0);
  }
}
