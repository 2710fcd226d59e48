/** Flag-set to bitmask conversion and the engine status-to-exception table
    (Util.java). */
module Util {
  import opened Wrappers
  import opened Expressions
  import opened Errors

  /** An element of a raw `EnumSet`: either an engine flag (a `BitFlag`) or some
      other enum constant. */
  datatype EnumElement = FlagElement(flag: ExpressionFlag) | OtherElement(ordinal: nat)

  /** Left-to-right OR of the flags' bits, as the loop accumulates it. */
  function OrAll(fs: seq<ExpressionFlag>): bv32 {
    if fs == [] then 0 else Bits(fs[|fs| - 1]) | OrAll(fs[..|fs| - 1])
  }

  /** The bitmask of a flag set, iterated in ordinal order. */
  function FlagSetBits(flags: set<ExpressionFlag>): bv32 {
    OrAll(FlagsInOrder(flags))
  }

  function FlagsOf(elems: seq<EnumElement>): (r: seq<ExpressionFlag>)
    requires forall i :: 0 <= i < |elems| ==> elems[i].FlagElement?
    ensures |r| == |elems|
    ensures forall i :: 0 <= i < |elems| ==> r[i] == elems[i].flag
  {
    if elems == [] then [] else [elems[0].flag] + FlagsOf(elems[1..])
  }

  /** Util.bitEnumSetToInt: ORs the bits of every element; any element that is not
      an engine flag raises InvalidParameterException. */
  method BitEnumSetToInt(elems: seq<EnumElement>) returns (r: Result<bv32, Error>)
    ensures r.Failure? <==> exists i :: 0 <= i < |elems| && elems[i].OtherElement?
    ensures r.Failure? ==> r.error == InvalidParameter
    ensures r.Success? ==> r.value == OrAll(FlagsOf(elems))
    ensures elems == [] ==> r == Success(0)
  {
    var bitValue: bv32 := 0;
    var i := 0;
    while i < |elems|
      invariant 0 <= i <= |elems|
      invariant forall j :: 0 <= j < i ==> elems[j].FlagElement?
      invariant bitValue == OrAll(FlagsOf(elems[..i]))
    {
      match elems[i]
      case FlagElement(f) =>
        OrAllStep(elems, i);
        bitValue := Bits(f) | bitValue;
        i := i + 1;
      case OtherElement(_) =>
        return Failure(InvalidParameter);
    }
    assert elems[..i] == elems;
    return Success(bitValue);
  }

  /** One more flag element ORs its bits into the running value. */
  lemma OrAllStep(elems: seq<EnumElement>, i: nat)
    requires i < |elems| && forall j :: 0 <= j <= i ==> elems[j].FlagElement?
    ensures OrAll(FlagsOf(elems[..i + 1])) == Bits(elems[i].flag) | OrAll(FlagsOf(elems[..i]))
  {
    var fs := FlagsOf(elems[..i + 1]);
    assert fs[..i] == FlagsOf(elems[..i]);
  }

  /** Every flag's bits are contained in the OR. */
  lemma {:induction false} OrAllUpperBound(fs: seq<ExpressionFlag>, f: ExpressionFlag)
    requires f in fs
    ensures SubMask(Bits(f), OrAll(fs))
  {
    var last := |fs| - 1;
    if fs[last] != f {
      assert f in fs[..last];
      OrAllUpperBound(fs[..last], f);
    }
  }

  /** `m` contains the bits of every flag in `fs`. */
  ghost predicate Covers(fs: seq<ExpressionFlag>, m: bv32) {
    forall f :: f in fs ==> SubMask(Bits(f), m)
  }

  /** Every bit set in `b` is set in `m`. */
  predicate SubMask(b: bv32, m: bv32) {
    b | m == m
  }

  /** The OR sets no bit outside any common upper bound of the flags' bits. */
  lemma {:induction false} OrAllLeast(fs: seq<ExpressionFlag>, m: bv32)
    requires Covers(fs, m)
    ensures SubMask(OrAll(fs), m)
  {
    if fs != [] {
      var last := |fs| - 1;
      assert forall f :: f in fs[..last] ==> f in fs;
      OrAllLeast(fs[..last], m);
      assert fs[last] in fs;
      OrStep(Bits(fs[last]), OrAll(fs[..last]), m);
    }
  }

  lemma OrStep(b: bv32, rest: bv32, m: bv32)
    requires SubMask(b, m) && SubMask(rest, m)
    ensures SubMask(b | rest, m)
  {
  }

  lemma OrAllCovers(fs: seq<ExpressionFlag>)
    ensures Covers(fs, OrAll(fs))
  {
    forall f | f in fs ensures SubMask(Bits(f), OrAll(fs)) {
      OrAllUpperBound(fs, f);
    }
  }

  /** The result depends only on which flags occur, not on iteration order or
      repetition. */
  lemma {:induction false} OrderIndependent(a: seq<ExpressionFlag>, b: seq<ExpressionFlag>)
    requires forall f :: f in a <==> f in b
    ensures OrAll(a) == OrAll(b)
  {
    OrAllCovers(a);
    OrAllCovers(b);
    MutualCover(a, b);
  }

  lemma {:induction false} MutualCover(a: seq<ExpressionFlag>, b: seq<ExpressionFlag>)
    requires Covers(a, OrAll(b)) && Covers(b, OrAll(a))
    ensures OrAll(a) == OrAll(b)
  {
    OrAllLeast(a, OrAll(b));
    OrAllLeast(b, OrAll(a));
    OrAntisymmetric(OrAll(a), OrAll(b));
  }

  lemma OrAntisymmetric(x: bv32, y: bv32)
    requires SubMask(x, y) && SubMask(y, x)
    ensures x == y
  {
  }

  /** Util.hsErrorIntToException: the exception raised for a failing engine status. */
  function HsErrorIntToException(hsError: int): (e: Error)
    ensures hsError == -1 <==> e == InvalidParameter
    ensures hsError == -2 <==> e == OutOfMemory
    ensures hsError == -11 <==> e == UnsupportedOperation
    ensures hsError !in {-1, -2, -11} <==> e == UnexpectedException
  {
    if hsError == -1 then InvalidParameter
    else if hsError == -2 then OutOfMemory
    else if hsError == -11 then UnsupportedOperation
    else UnexpectedException
  }
}
