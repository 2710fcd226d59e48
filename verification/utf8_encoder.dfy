/** The single-pass UTF-8 encoder that writes a string into a byte buffer
    and records, for every byte written, the index of the char it came from. */
module Utf8Encoder {
  import opened Wrappers
  import opened Expressions
  import opened Errors
  import opened Unicode
  import opened Sequences
  import M = ByteCharMapping

  /** Which handling of a high surrogate followed by a non-low char:
      `AsWritten` writes `'?'` and then the raw low byte of the second char,
      consuming both; `Corrected` writes `'?'` for the high surrogate only and
      encodes the second char on the next pass, as the JDK's encoder does. */
  datatype Variant = AsWritten | Corrected

  /** Bytes written and, for each, the char index recorded for it. */
  datatype Encoded = Encoded(bytes: seq<Byte>, charIndexes: seq<int>)

  /** What one pass of the encoding loop writes, and where the next pass starts. */
  datatype Step = Step(out: Encoded, next: nat)

  function Append(a: Encoded, b: Encoded): Encoded {
    Encoded(a.bytes + b.bytes, a.charIndexes + b.charIndexes)
  }

  lemma AppendAssociative(a: Encoded, b: Encoded, c: Encoded)
    ensures Append(a, Append(b, c)) == Append(Append(a, b), c)
  {
    assert a.bytes + (b.bytes + c.bytes) == (a.bytes + b.bytes) + c.bytes;
    assert a.charIndexes + (b.charIndexes + c.charIndexes) == (a.charIndexes + b.charIndexes) + c.charIndexes;
  }

  /** One pass of the loop at char `i`: the branches for ASCII, two-byte
      chars, surrogates (lone low, high at the end, high before a non-low
      char, a proper pair) and three-byte chars. */
  function StepAt(s: JString, i: nat, v: Variant): (r: Step)
    requires i < |s|
    ensures |r.out.bytes| == |r.out.charIndexes| && 1 <= |r.out.bytes| <= 4
    ensures i < r.next <= i + 2 && r.next <= |s|
    ensures IndexesWithin(r.out.charIndexes, i, r.next) && Ascending(r.out.charIndexes)
  {
    var c := s[i];
    if c < 0x80 then Step(Encoded([c], [i]), i + 1)
    else if c < 0x800 then Step(Encoded([0xC0 + c / 0x40, 0x80 + c % 0x40], [i, i]), i + 1)
    else if IsSurrogate(c) then
      if !IsHighSurrogate(c) then Step(Encoded([QuestionMark], [i]), i + 1)
      else if i + 1 == |s| then Step(Encoded([QuestionMark], [i]), i + 1)
      else
        var c2 := s[i + 1];
        if !IsLowSurrogate(c2) then
          match v
          case AsWritten =>
            Step(Encoded([QuestionMark, if IsHighSurrogate(c2) then QuestionMark else c2 % 0x100], [i, i + 1]), i + 2)
          case Corrected => Step(Encoded([QuestionMark], [i]), i + 1)
        else
          var cp := ToCodePoint(c, c2);
          Step(Encoded([0xF0 + cp / 0x40000, 0x80 + (cp / 0x1000) % 0x40, 0x80 + (cp / 0x40) % 0x40, 0x80 + cp % 0x40],
                       [i, i, i + 1, i + 1]), i + 2)
    else
      Step(Encoded([0xE0 + (c / 0x1000) % 0x10, 0x80 + (c / 0x40) % 0x40, 0x80 + c % 0x40], [i, i, i]), i + 1)
  }

  /** Everything the loop writes from char `i` to the end. */
  function EncodeFrom(s: JString, i: nat, v: Variant): (r: Encoded)
    requires i <= |s|
    ensures |r.bytes| == |r.charIndexes|
    ensures IndexesWithin(r.charIndexes, i, |s|) && Ascending(r.charIndexes)
    decreases |s| - i
  {
    if i == |s| then Encoded([], [])
    else
      var st := StepAt(s, i, v);
      var rest := EncodeFrom(s, st.next, v);
      AppendAscending(st.out.charIndexes, rest.charIndexes, i, st.next, |s|);
      Append(st.out, rest)
  }

  /** The whole encoding of `s`. */
  function Encode(s: JString, v: Variant): (r: Encoded)
    ensures |r.bytes| == |r.charIndexes|
    ensures IndexesWithin(r.charIndexes, 0, |s|) && Ascending(r.charIndexes)
  {
    EncodeFrom(s, 0, v)
  }

  /** ASCII text is copied byte for byte and byte `k` maps to char `k`. */
  lemma {:induction false} AsciiFrom(s: JString, i: nat, v: Variant)
    requires i <= |s| && forall k :: 0 <= k < |s| ==> s[k] < 0x80
    ensures EncodeFrom(s, i, v) == Encoded(s[i..], seq(|s| - i, k => i + k))
    decreases |s| - i
  {
    if i < |s| {
      AsciiFrom(s, i + 1, v);
      assert s[i..] == [s[i]] + s[i + 1..];
      assert seq(|s| - i, k => i + k) == [i] + seq(|s| - (i + 1), k => i + 1 + k);
    }
  }

  lemma AsciiIdentity(s: JString, v: Variant)
    requires forall k :: 0 <= k < |s| ==> s[k] < 0x80
    ensures Encode(s, v).bytes == s
    ensures forall k :: 0 <= k < |s| ==> Encode(s, v).charIndexes[k] == k
  {
    AsciiFrom(s, 0, v);
  }

  /** Every branch that encodes a code point writes its RFC 3629 form. */
  lemma StepIsUtf8(s: JString, i: nat, v: Variant)
    requires i < |s|
    ensures !IsSurrogate(s[i]) ==> StepAt(s, i, v).out.bytes == Utf8Bytes(s[i]) && StepAt(s, i, v).next == i + 1
    ensures PairAt(s, i) ==>
      StepAt(s, i, v).out.bytes == Utf8Bytes(ToCodePoint(s[i], s[i + 1])) && StepAt(s, i, v).next == i + 2
  {
    var c := s[i];
    if 0x800 <= c && !IsSurrogate(c) {
      assert (c / 0x1000) % 0x10 == c / 0x1000;
    }
  }

  /** On a well-formed string both variants write exactly what
      `String.getBytes(UTF_8)` writes. */
  lemma {:induction false} WellFormedFrom(s: JString, i: nat, v: Variant)
    requires WellFormed(s) && i <= |s|
    requires i < |s| ==> !IsLowSurrogate(s[i])
    ensures EncodeFrom(s, i, v).bytes == JdkBytesFrom(s, i)
    decreases |s| - i
  {
    if i < |s| {
      assert UnitWellPlaced(s, i);
      StepIsUtf8(s, i, v);
      var next := StepAt(s, i, v).next;
      if next < |s| {
        assert UnitWellPlaced(s, next);
      }
      WellFormedFrom(s, next, v);
    }
  }

  lemma EncodeMatchesJdk(s: JString, v: Variant)
    requires WellFormed(s)
    ensures Encode(s, v).bytes == JdkGetBytes(s)
    ensures DecodeUtf8(Encode(s, v).bytes) == Some(s)
  {
    if 0 < |s| {
      assert UnitWellPlaced(s, 0);
    }
    WellFormedFrom(s, 0, v);
    JdkBytesRoundTrip(s);
  }

  /** As written, a lone high surrogate followed by a non-ASCII char writes
      that char's low byte on its own: here `0xE9`, which is not UTF-8. */
  lemma AsWrittenBreaksUtf8()
    ensures Encode([0xD800, 0xE9], AsWritten).bytes == [QuestionMark, 0xE9]
    ensures DecodeUtf8(Encode([0xD800, 0xE9], AsWritten).bytes) == None
    ensures JdkGetBytes([0xD800, 0xE9]) == [QuestionMark, 0xC3, 0xA9]
  {
    var s: JString := [0xD800, 0xE9];
    assert StepAt(s, 0, AsWritten).next == 2;
    assert !PairAt(s, 0) && !PairAt(s, 1);
    assert JdkBytesFrom(s, 1) == [0xC3, 0xA9] + JdkBytesFrom(s, 2);
    var b: seq<Byte> := [QuestionMark, 0xE9];
    assert DecodeFirst(b[1..]) == None;
  }

  /** The corrected encoder writes exactly `String.getBytes(UTF_8)` for every
      string, well-formed or not. */
  lemma {:induction false} CorrectedFrom(s: JString, i: nat)
    requires i <= |s|
    ensures EncodeFrom(s, i, Corrected).bytes == JdkBytesFrom(s, i)
    decreases |s| - i
  {
    if i < |s| {
      StepIsUtf8(s, i, Corrected);
      var st := StepAt(s, i, Corrected);
      CorrectedFrom(s, st.next);
      if IsSurrogate(s[i]) && !PairAt(s, i) {
        assert st.out.bytes == [QuestionMark] && st.next == i + 1;
      }
    }
  }

  lemma CorrectedMatchesJdk(s: JString)
    ensures Encode(s, Corrected).bytes == JdkGetBytes(s)
  {
    CorrectedFrom(s, 0);
  }

  /** The buffer after `flip()` and the filled mapping. */
  datatype BufferAndMap = BufferAndMap(buffer: seq<Byte>, mapping: M.Mapping)

  /** `m` is a mapping of `capacity` cells whose first `|idx|` cells hold
      `idx` and whose remaining cells are still zero. */
  ghost predicate Holds(m: M.Mapping, idx: seq<int>, capacity: int) {
    M.Size(m) == capacity && |idx| <= capacity
    && (forall k :: 0 <= k < |idx| ==> M.Cell(m, k) == idx[k])
    && (forall k :: |idx| <= k < capacity ==> M.Cell(m, k) == 0)
  }

  /** The `setCharIndex(writerIndex++, ...)` / `buffer.put(...)` pairs of one
      pass: each byte's char index is recorded at the next free cell, and the
      first cell past the end fails the mapping's index check. */
  method PutAll(m: M.Mapping, buf: seq<Byte>, ghost idx: seq<int>, out: Encoded, capacity: int, bound: int)
    returns (r: Result<BufferAndMap, Error>)
    requires |out.bytes| == |out.charIndexes| && |buf| == |idx| && capacity <= INT32_MAX
    requires Holds(m, idx, capacity) && bound <= M.MaxStorable(M.ElementWidth(m))
    requires IndexesWithin(out.charIndexes, 0, bound)
    ensures r.Success? <==> |buf| + |out.bytes| <= capacity
    ensures r.Failure? ==> r.error == IndexOutOfBounds
    ensures r.Success? ==> r.value.buffer == buf + out.bytes
    ensures r.Success? ==> Holds(r.value.mapping, idx + out.charIndexes, capacity)
    ensures r.Success? ==> M.ElementWidth(r.value.mapping) == M.ElementWidth(m)
  {
    var m', buf' := m, buf;
    ghost var idx' := idx;
    var j := 0;
    while j < |out.bytes|
      invariant 0 <= j <= |out.bytes|
      invariant buf' == buf + out.bytes[..j] && idx' == idx + out.charIndexes[..j]
      invariant Holds(m', idx', capacity) && M.ElementWidth(m') == M.ElementWidth(m)
    {
      var ci := out.charIndexes[j];
      var stored := M.SetCharIndex(m', |buf'|, ci);
      if stored.Failure? {
        return Failure(stored.error);
      }
      m' := stored.value;
      assert M.GetCharIndex(m', |buf'|) == Success(ci);
      buf' := buf' + [out.bytes[j]];
      idx' := idx' + [ci];
      assert out.bytes[..j + 1] == out.bytes[..j] + [out.bytes[j]];
      assert out.charIndexes[..j + 1] == out.charIndexes[..j] + [ci];
      j := j + 1;
    }
    assert out.bytes[..j] == out.bytes && out.charIndexes[..j] == out.charIndexes;
    return Success(BufferAndMap(buf', m'));
  }

  /** encodeToBufferAndMap: a mapping as large as the buffer's capacity and
      able to hold the string's length; each byte is recorded in the mapping
      before it is put. Running out of capacity fails on the mapping's index
      check before the buffer overflows. */
  method EncodeToBufferAndMap(capacity: int, s: JString) returns (r: Result<BufferAndMap, Error>)
    requires 0 <= capacity <= INT32_MAX && |s| <= INT32_MAX
    ensures r.Success? <==> |Encode(s, AsWritten).bytes| <= capacity
    ensures r.Failure? ==> r.error == IndexOutOfBounds
    ensures r.Success? ==> r.value.buffer == Encode(s, AsWritten).bytes
    ensures r.Success? ==> M.Size(r.value.mapping) == capacity
    ensures r.Success? ==> forall k :: 0 <= k < |r.value.buffer| ==>
      M.GetCharIndex(r.value.mapping, k) == Success(Encode(s, AsWritten).charIndexes[k])
    ensures r.Success? ==> forall k :: |r.value.buffer| <= k < capacity ==>
      M.GetCharIndex(r.value.mapping, k) == Success(0)
  {
    ghost var target := Encode(s, AsWritten);
    var created := M.Create(capacity, |s|);
    var m := created.value;
    var buf: seq<Byte> := [];
    ghost var idx: seq<int> := [];
    assert Append(Encoded(buf, idx), target) == target;
    var i := 0;
    while i < |s|
      invariant 0 <= i <= |s|
      invariant target == Append(Encoded(buf, idx), EncodeFrom(s, i, AsWritten))
      invariant |buf| == |idx| && Holds(m, idx, capacity)
      invariant |s| <= M.MaxStorable(M.ElementWidth(m))
      decreases |s| - i
    {
      var st := StepAt(s, i, AsWritten);
      ghost var rest := EncodeFrom(s, st.next, AsWritten);
      assert EncodeFrom(s, i, AsWritten) == Append(st.out, rest);
      var put := PutAll(m, buf, idx, st.out, capacity, |s|);
      if put.Failure? {
        assert |target.bytes| == |buf| + |st.out.bytes| + |rest.bytes|;
        return Failure(put.error);
      }
      AppendAssociative(Encoded(buf, idx), st.out, rest);
      m, buf := put.value.mapping, put.value.buffer;
      idx := idx + st.out.charIndexes;
      i := st.next;
    }
    return Success(BufferAndMap(buf, m));
  }
}
