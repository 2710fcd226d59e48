/** The byte-to-char position table used to translate match offsets in the
    UTF-8 bytes of a scanned string back to indexes into the string. */
module Utf8Positions {
  import opened Wrappers
  import opened Expressions
  import opened Errors
  import opened Unicode
  import opened Sequences
  import E = Utf8Encoder

  /** How many bytes a char position is given in the table.
      `CodePointWidth` sizes every position by the UTF-8 length of
      `codePointAt`, which gives an unpaired surrogate three bytes;
      `WrittenWidth` gives an unpaired surrogate the one byte (`'?'`) that
      `String.getBytes(UTF_8)` actually writes for it. */
  datatype Sizing = CodePointWidth | WrittenWidth

  /** `String.codePointAt(i)`: a pair's code point, or the char itself. */
  function CodePointAt(s: JString, i: nat): (cp: CodePoint)
    requires i < |s|
    ensures cp >= 0x10000 <==> PairAt(s, i)
  {
    if PairAt(s, i) then ToCodePoint(s[i], s[i + 1]) else s[i]
  }

  /** The UTF-8 length of a code point by its range. Every code point is at
      most U+10FFFF, so the source's fifth branch (`throw new Error()`) is
      never taken. */
  function Width(cp: CodePoint): (w: nat)
    ensures 1 <= w <= 4
  {
    if cp <= 0x7F then 1 else if cp <= 0x7FF then 2 else if cp <= 0xFFFF then 3 else 4
  }

  function WidthAt(s: JString, pos: nat, sizing: Sizing): (w: nat)
    requires pos < |s|
    ensures 1 <= w <= 4
  {
    if sizing == WrittenWidth && !PairAt(s, pos) && IsSurrogate(s[pos]) then 1
    else Width(CodePointAt(s, pos))
  }

  /** The next position: `Character.charCount` of the code point. */
  function Next(s: JString, pos: nat): (n: nat)
    requires pos < |s|
    ensures pos < n <= |s|
  {
    if PairAt(s, pos) then pos + 2 else pos + 1
  }

  /** The table from position `pos` on: each position repeated once per byte. */
  function RunsFrom(s: JString, pos: nat, sizing: Sizing): (r: seq<int>)
    requires pos <= |s|
    ensures IndexesWithin(r, pos, |s|) && Ascending(r)
    decreases |s| - pos
  {
    if pos == |s| then []
    else
      var run := seq(WidthAt(s, pos, sizing), _ => pos);
      var rest := RunsFrom(s, Next(s, pos), sizing);
      AppendAscending(run, rest, pos, Next(s, pos), |s|);
      run + rest
  }

  function Runs(s: JString, sizing: Sizing): seq<int> {
    RunsFrom(s, 0, sizing)
  }

  /** `Arrays.fill(a, from, to, v)` once its range check has passed. */
  function Fill(a: seq<int>, from: nat, to: nat, v: int): (r: seq<int>)
    requires from <= to <= |a|
    ensures |r| == |a|
    ensures forall k :: 0 <= k < |a| ==> r[k] == if from <= k < to then v else a[k]
  {
    a[..from] + seq(to - from, _ => v) + a[to..]
  }

  /** Filling the next run moves it from the pending tail into the table's prefix. */
  lemma FillExtends(table: seq<int>, current: nat, w: nat, pos: int, tail: seq<int>, whole: seq<int>)
    requires current + w <= |table|
    requires whole == table[..current] + (seq(w, _ => pos) + tail)
    ensures whole == Fill(table, current, current + w, pos)[..current + w] + tail
  {
    var filled := Fill(table, current, current + w, pos);
    assert filled[..current + w] == table[..current] + seq(w, _ => pos);
  }

  /** The table `byteToStringPositionMap` returns, stated by its runs: the
      runs laid end to end, then zeros up to `bytesLength`; runs longer than
      `bytesLength` make it throw. */
  function PositionTable(s: JString, bytesLength: nat, sizing: Sizing): (r: Result<seq<int>, Error>)
    ensures r.Success? ==> |r.value| == bytesLength
    ensures r.Failure? ==> r.error == IndexOutOfBounds
  {
    var runs := Runs(s, sizing);
    if |runs| <= bytesLength then Success(runs + seq(bytesLength - |runs|, _ => 0))
    else Failure(IndexOutOfBounds)
  }

  /** byteToStringPositionMap: a zeroed array of `bytesLength` cells; each
      position's run is filled in turn, and a run that would reach past the
      end makes `Arrays.fill` throw before it writes anything. */
  method ByteToStringPositionMap(s: JString, bytesLength: nat, sizing: Sizing) returns (r: Result<seq<int>, Error>)
    ensures r.Success? <==> |Runs(s, sizing)| <= bytesLength
    ensures r.Failure? ==> r.error == IndexOutOfBounds
    ensures r.Success? ==> |r.value| == bytesLength
    ensures r.Success? ==> r.value[..|Runs(s, sizing)|] == Runs(s, sizing)
    ensures r.Success? ==> forall k :: |Runs(s, sizing)| <= k < bytesLength ==> r.value[k] == 0
    ensures r == PositionTable(s, bytesLength, sizing)
  {
    var table := seq(bytesLength, _ => 0);
    var current := 0;
    var pos := 0;
    while pos < |s|
      invariant 0 <= pos <= |s| && 0 <= current <= bytesLength == |table|
      invariant Runs(s, sizing) == table[..current] + RunsFrom(s, pos, sizing)
      invariant forall k :: current <= k < bytesLength ==> table[k] == 0
      decreases |s| - pos
    {
      var c := CodePointAt(s, pos);
      var w := WidthAt(s, pos, sizing);
      if current + w > bytesLength {
        assert |Runs(s, sizing)| == current + w + |RunsFrom(s, Next(s, pos), sizing)|;
        return Failure(IndexOutOfBounds);
      }
      assert RunsFrom(s, pos, sizing) == seq(w, _ => pos) + RunsFrom(s, Next(s, pos), sizing);
      FillExtends(table, current, w, pos, RunsFrom(s, Next(s, pos), sizing), Runs(s, sizing));
      table := Fill(table, current, current + w, pos);
      current := current + w;
      if c >= 0x10000 {
        pos := pos + 1;
      }
      pos := pos + 1;
    }
    assert table[..current] == Runs(s, sizing);
    assert table == table[..current] + seq(bytesLength - current, _ => 0);
    return Success(table);
  }

  /** Walking code point by code point from `i` meets no unpaired surrogate. */
  ghost predicate NoLoneFrom(s: JString, i: nat)
    requires i <= |s|
    decreases |s| - i
  {
    i == |s| || ((PairAt(s, i) || !IsSurrogate(s[i])) && NoLoneFrom(s, Next(s, i)))
  }

  lemma {:induction false} WellFormedWalk(s: JString, i: nat)
    requires WellFormed(s) && i <= |s|
    requires i < |s| ==> !IsLowSurrogate(s[i])
    ensures NoLoneFrom(s, i)
    decreases |s| - i
  {
    if i < |s| {
      assert UnitWellPlaced(s, i);
      var n := Next(s, i);
      if n < |s| {
        assert UnitWellPlaced(s, n);
      }
      WellFormedWalk(s, n);
    }
  }

  lemma {:induction false} WalkWellPlaced(s: JString, i: nat)
    requires i <= |s| && NoLoneFrom(s, i)
    ensures forall k :: i <= k < |s| ==> UnitWellPlaced(s, k)
    decreases |s| - i
  {
    if i < |s| {
      WalkWellPlaced(s, Next(s, i));
    }
  }

  /** The code point walk meets an unpaired surrogate exactly when the
      string is ill-formed. */
  lemma NoLoneIffWellFormed(s: JString)
    ensures NoLoneFrom(s, 0) <==> WellFormed(s)
  {
    if WellFormed(s) {
      if 0 < |s| {
        assert UnitWellPlaced(s, 0);
      }
      WellFormedWalk(s, 0);
    }
    if NoLoneFrom(s, 0) {
      WalkWellPlaced(s, 0);
    }
  }

  /** Sizing by code point gives each position at least as many bytes as
      `getBytes` writes for it, and exactly as many unless an unpaired
      surrogate is met; sizing by bytes written always matches. */
  lemma {:induction false} RunsLengthFrom(s: JString, i: nat)
    requires i <= |s|
    ensures |RunsFrom(s, i, WrittenWidth)| == |JdkBytesFrom(s, i)|
    ensures |RunsFrom(s, i, CodePointWidth)| >= |JdkBytesFrom(s, i)|
    ensures |RunsFrom(s, i, CodePointWidth)| == |JdkBytesFrom(s, i)| <==> NoLoneFrom(s, i)
    decreases |s| - i
  {
    if i < |s| {
      RunsLengthFrom(s, Next(s, i));
      if !PairAt(s, i) && !IsSurrogate(s[i]) {
        assert |Utf8Bytes(s[i])| == Width(s[i]);
      }
    }
  }

  /** With the table sized by code point, the table built over
      `getBytes(UTF_8)` fits exactly when the string is well-formed: one
      unpaired surrogate anywhere is enough to overrun it. */
  lemma CodePointTableFitsIffWellFormed(s: JString)
    ensures |Runs(s, CodePointWidth)| <= |JdkGetBytes(s)| <==> WellFormed(s)
    ensures WellFormed(s) ==> Runs(s, CodePointWidth) == Runs(s, WrittenWidth)
  {
    RunsLengthFrom(s, 0);
    NoLoneIffWellFormed(s);
    if WellFormed(s) {
      WellFormedWalk(s, 0);
      SameRunsWithoutLone(s, 0);
    }
  }

  lemma {:induction false} SameRunsWithoutLone(s: JString, i: nat)
    requires i <= |s| && NoLoneFrom(s, i)
    ensures RunsFrom(s, i, CodePointWidth) == RunsFrom(s, i, WrittenWidth)
    decreases |s| - i
  {
    if i < |s| {
      SameRunsWithoutLone(s, Next(s, i));
    }
  }

  /** Sized by bytes written, the table over `getBytes(UTF_8)` always fits
      exactly. */
  lemma WrittenTableFits(s: JString)
    ensures |Runs(s, WrittenWidth)| == |JdkGetBytes(s)|
  {
    RunsLengthFrom(s, 0);
  }

  /** The input `"é\ud800"` (an accented letter, then an unpaired
      surrogate) is five table bytes wide but three bytes long. */
  lemma LoneSurrogateOverruns()
    ensures |JdkGetBytes([0xE9, 0xD800])| == 3
    ensures |Runs([0xE9, 0xD800], CodePointWidth)| == 5
  {
    var s: JString := [0xE9, 0xD800];
    assert !PairAt(s, 0) && !PairAt(s, 1);
    assert JdkBytesFrom(s, 1) == [QuestionMark];
    assert JdkBytesFrom(s, 0) == [0xC3, 0xA9] + JdkBytesFrom(s, 1);
    assert RunsFrom(s, 1, CodePointWidth) == [1, 1, 1];
    assert RunsFrom(s, 0, CodePointWidth) == [0, 0] + RunsFrom(s, 1, CodePointWidth);
  }

  /** The char the encoder attributes byte `k` to, read off the table `rs`:
      the table's position, except that the last two bytes of a pair (those
      with the same position two bytes earlier) go to its low surrogate. */
  function EncoderCharAt(s: JString, rs: seq<int>, k: nat): int
    requires k < |rs|
  {
    if 2 <= k && rs[k - 2] == rs[k] && PairAt(s, rs[k]) then rs[k] + 1 else rs[k]
  }

  /** One corrected step attributes its bytes to the char it starts at,
      except the last two bytes of a pair, which go to the low surrogate. */
  lemma StepIndexes(s: JString, i: nat)
    requires i < |s|
    ensures E.StepAt(s, i, E.Corrected).next == Next(s, i)
    ensures |E.StepAt(s, i, E.Corrected).out.charIndexes| == WidthAt(s, i, WrittenWidth)
    ensures forall m :: 0 <= m < |E.StepAt(s, i, E.Corrected).out.charIndexes| ==>
      E.StepAt(s, i, E.Corrected).out.charIndexes[m] == if PairAt(s, i) && 2 <= m then i + 1 else i
  {
    E.StepIsUtf8(s, i, E.Corrected);
  }

  /** Gluing one run in front of a table whose encoder indexes agree keeps
      them agreeing, since the run's position is below every later one. */
  lemma {:induction false} AgreesAcross(s: JString, i: nat, run: seq<int>, rest: seq<int>, ci1: seq<int>, ci2: seq<int>)
    requires |ci1| == |run| && |ci2| == |rest|
    requires forall m :: 0 <= m < |run| ==> run[m] == i
    requires forall m :: 0 <= m < |rest| ==> i < rest[m]
    requires forall m :: 0 <= m < |ci1| ==> ci1[m] == if PairAt(s, i) && 2 <= m then i + 1 else i
    requires forall m :: 0 <= m < |rest| ==> ci2[m] == EncoderCharAt(s, rest, m)
    ensures forall k :: 0 <= k < |run + rest| ==> (ci1 + ci2)[k] == EncoderCharAt(s, run + rest, k)
  {
    var rs, ci := run + rest, ci1 + ci2;
    forall k | 0 <= k < |rs|
      ensures ci[k] == EncoderCharAt(s, rs, k)
    {
      if k < |run| {
        assert rs[k] == i && ci[k] == ci1[k];
        if 2 <= k {
          assert rs[k - 2] == i;
        }
      } else {
        var k' := k - |run|;
        assert ci[k] == ci2[k'] && rs[k] == rest[k'];
        if k' >= 2 {
          assert rs[k - 2] == rest[k' - 2];
        } else if k >= 2 {
          assert rs[k - 2] == i < rest[k'];
        }
      }
    }
  }

  /** Each byte the corrected encoder writes is attributed to the char the
      bytes-written table gives, or, for the last two bytes of a pair, to
      the pair's low surrogate just after it. */
  lemma {:induction false} EncoderAgreesFrom(s: JString, i: nat)
    requires i <= |s|
    ensures |E.EncodeFrom(s, i, E.Corrected).charIndexes| == |RunsFrom(s, i, WrittenWidth)|
    ensures forall k :: 0 <= k < |RunsFrom(s, i, WrittenWidth)| ==>
      E.EncodeFrom(s, i, E.Corrected).charIndexes[k] == EncoderCharAt(s, RunsFrom(s, i, WrittenWidth), k)
    decreases |s| - i
  {
    if i < |s| {
      var st := E.StepAt(s, i, E.Corrected);
      StepIndexes(s, i);
      EncoderAgreesFrom(s, st.next);
      var run := seq(WidthAt(s, i, WrittenWidth), _ => i);
      var rest := RunsFrom(s, st.next, WrittenWidth);
      assert E.EncodeFrom(s, i, E.Corrected).charIndexes == st.out.charIndexes + E.EncodeFrom(s, st.next, E.Corrected).charIndexes;
      assert RunsFrom(s, i, WrittenWidth) == run + rest;
      AgreesAcross(s, i, run, rest, st.out.charIndexes, E.EncodeFrom(s, st.next, E.Corrected).charIndexes);
    }
  }

  /** On a well-formed string both variants of the encoder write the same
      bytes and the same char indexes. */
  lemma {:induction false} VariantsAgreeFrom(s: JString, i: nat)
    requires WellFormed(s) && i <= |s|
    requires i < |s| ==> !IsLowSurrogate(s[i])
    ensures E.EncodeFrom(s, i, E.AsWritten) == E.EncodeFrom(s, i, E.Corrected)
    decreases |s| - i
  {
    if i < |s| {
      assert UnitWellPlaced(s, i);
      if i + 1 < |s| {
        assert UnitWellPlaced(s, i + 1);
      }
      assert E.StepAt(s, i, E.AsWritten) == E.StepAt(s, i, E.Corrected);
      var next := E.StepAt(s, i, E.Corrected).next;
      if next < |s| {
        assert UnitWellPlaced(s, next);
      }
      VariantsAgreeFrom(s, next);
    }
  }

  /** The corrected encoder's char indexes are the bytes-written table,
      except that the last two bytes of every pair map to its low surrogate
      where the table has the high one. */
  lemma EncoderAgreesWithTable(s: JString)
    ensures |E.Encode(s, E.Corrected).charIndexes| == |Runs(s, WrittenWidth)|
    ensures forall k :: 0 <= k < |Runs(s, WrittenWidth)| ==>
      E.Encode(s, E.Corrected).charIndexes[k] == EncoderCharAt(s, Runs(s, WrittenWidth), k)
  {
    EncoderAgreesFrom(s, 0);
  }

  /** As written, on a well-formed string, the encoder's char indexes and the
      code-point-sized table the scanner builds agree in the same way. (On an
      ill-formed string off the fast path that table does not build at all.) */
  lemma AsWrittenEncoderAgreesWithTable(s: JString)
    requires WellFormed(s)
    ensures |E.Encode(s, E.AsWritten).charIndexes| == |Runs(s, CodePointWidth)|
    ensures forall k :: 0 <= k < |Runs(s, CodePointWidth)| ==>
      E.Encode(s, E.AsWritten).charIndexes[k] == EncoderCharAt(s, Runs(s, CodePointWidth), k)
  {
    if 0 < |s| {
      assert UnitWellPlaced(s, 0);
    }
    VariantsAgreeFrom(s, 0);
    CodePointTableFitsIffWellFormed(s);
    EncoderAgreesFrom(s, 0);
  }
}
