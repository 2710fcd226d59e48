/** Values shared by the whole wrapper: Java strings as UTF-16 code units,
    the engine's expression flags, expressions and scan matches. */
module Expressions {
  import opened Wrappers

  /** A UTF-16 code unit (a Java `char`, unsigned 16-bit). Dafny's own `char`
      excludes surrogates, so code units are numbers here. */
  type CodeUnit = x: int | 0 <= x < 0x1_0000

  /** A Java `String`: a sequence of UTF-16 code units, possibly ill-formed. */
  type JString = seq<CodeUnit>

  /** A byte of a buffer, read as an unsigned value (`b & 0xFF` in Java). */
  type Byte = x: int | 0 <= x < 0x100

  const INT32_MIN: int := -0x8000_0000
  const INT32_MAX: int := 0x7FFF_FFFF

  /** A Java `int`. */
  type Int32 = x: int | INT32_MIN <= x <= INT32_MAX

  /** The engine's per-expression flags, in declaration (ordinal) order. */
  datatype ExpressionFlag =
    | NoFlag | Caseless | DotAll | Multiline | SingleMatch | AllowEmpty
    | Utf8 | Ucp | Prefilter | SomLeftmost | Combination | Quiet

  /** All flags in ordinal order: the order in which an `EnumSet` iterates. */
  const AllFlags: seq<ExpressionFlag> :=
    [NoFlag, Caseless, DotAll, Multiline, SingleMatch, AllowEmpty,
     Utf8, Ucp, Prefilter, SomLeftmost, Combination, Quiet]

  /** The engine bit of each flag (the HS_FLAG_* values of the engine's API). */
  function Bits(f: ExpressionFlag): bv32 {
    match f
    case NoFlag => 0
    case Caseless => 1
    case DotAll => 2
    case Multiline => 4
    case SingleMatch => 8
    case AllowEmpty => 16
    case Utf8 => 32
    case Ucp => 64
    case Prefilter => 128
    case SomLeftmost => 256
    case Combination => 512
    case Quiet => 1024
  }

  /** No two flags share a bit pattern, so a bitmask names at most one flag. */
  lemma BitsInjective(f: ExpressionFlag, g: ExpressionFlag)
    ensures Bits(f) == Bits(g) ==> f == g
  {
  }

  /** The flag whose bit pattern is `bits`, if any (the `bitmaskToFlag` lookup of loading). */
  function FlagOfBits(bits: int): (r: Option<ExpressionFlag>)
    ensures r.Some? ==> Bits(r.value) as int == bits
    ensures r.None? ==> forall f :: Bits(f) as int != bits
  {
    if bits == 0 then Some(NoFlag)
    else if bits == 1 then Some(Caseless)
    else if bits == 2 then Some(DotAll)
    else if bits == 4 then Some(Multiline)
    else if bits == 8 then Some(SingleMatch)
    else if bits == 16 then Some(AllowEmpty)
    else if bits == 32 then Some(Utf8)
    else if bits == 64 then Some(Ucp)
    else if bits == 128 then Some(Prefilter)
    else if bits == 256 then Some(SomLeftmost)
    else if bits == 512 then Some(Combination)
    else if bits == 1024 then Some(Quiet)
    else None
  }

  /** The elements of `flags` listed in ordinal order, each once. */
  function FlagsInOrder(flags: set<ExpressionFlag>): (r: seq<ExpressionFlag>)
    ensures forall f :: f in r <==> f in flags
    ensures OrdinalAscending(r)
    ensures |r| == |flags| <= |AllFlags|
  {
    var r := Select(AllFlags, flags);
    AllFlagsComplete();
    AllFlagsAscending();
    SelectAscending(AllFlags, flags);
    SelectDistinctCard(AllFlags, flags);
    r
  }

  /** Every flag occurs in `AllFlags`. */
  lemma AllFlagsComplete()
    ensures forall f :: f in AllFlags
  {
    forall f ensures f in AllFlags {
      match f
      case NoFlag => assert AllFlags[0] == f;
      case Caseless => assert AllFlags[1] == f;
      case DotAll => assert AllFlags[2] == f;
      case Multiline => assert AllFlags[3] == f;
      case SingleMatch => assert AllFlags[4] == f;
      case AllowEmpty => assert AllFlags[5] == f;
      case Utf8 => assert AllFlags[6] == f;
      case Ucp => assert AllFlags[7] == f;
      case Prefilter => assert AllFlags[8] == f;
      case SomLeftmost => assert AllFlags[9] == f;
      case Combination => assert AllFlags[10] == f;
      case Quiet => assert AllFlags[11] == f;
    }
  }

  /** A flag's position in declaration order. */
  function Ordinal(f: ExpressionFlag): nat {
    match f
    case NoFlag => 0
    case Caseless => 1
    case DotAll => 2
    case Multiline => 3
    case SingleMatch => 4
    case AllowEmpty => 5
    case Utf8 => 6
    case Ucp => 7
    case Prefilter => 8
    case SomLeftmost => 9
    case Combination => 10
    case Quiet => 11
  }

  ghost predicate OrdinalAscending(xs: seq<ExpressionFlag>) {
    forall i, j :: 0 <= i < j < |xs| ==> Ordinal(xs[i]) < Ordinal(xs[j])
  }

  function Select(xs: seq<ExpressionFlag>, flags: set<ExpressionFlag>): (r: seq<ExpressionFlag>)
    ensures forall f :: f in r <==> f in xs && f in flags
    ensures |r| <= |xs|
  {
    if xs == [] then []
    else (if xs[0] in flags then [xs[0]] else []) + Select(xs[1..], flags)
  }

  /** `AllFlags` lists each flag at its ordinal. */
  lemma AllFlagsAscending()
    ensures OrdinalAscending(AllFlags)
  {
    assert forall i :: 0 <= i < |AllFlags| ==> Ordinal(AllFlags[i]) == i;
  }

  lemma {:induction false} SelectAscending(xs: seq<ExpressionFlag>, flags: set<ExpressionFlag>)
    requires OrdinalAscending(xs)
    ensures OrdinalAscending(Select(xs, flags))
  {
    if xs != [] {
      SelectAscending(xs[1..], flags);
      var tail := Select(xs[1..], flags);
      forall k | 0 <= k < |tail|
        ensures Ordinal(xs[0]) < Ordinal(tail[k])
      {
        assert tail[k] in xs[1..];
        var m :| 0 <= m < |xs[1..]| && xs[1..][m] == tail[k];
        assert xs[m + 1] == tail[k];
      }
      var r := Select(xs, flags);
      if xs[0] in flags {
        assert r == [xs[0]] + tail;
        forall i, j | 0 <= i < j < |r|
          ensures Ordinal(r[i]) < Ordinal(r[j])
        {
          if i == 0 {
            assert r[j] == tail[j - 1];
          } else {
            assert r[i] == tail[i - 1] && r[j] == tail[j - 1];
          }
        }
      } else {
        assert r == tail;
      }
    }
  }

  lemma SelectDistinctCard(xs: seq<ExpressionFlag>, flags: set<ExpressionFlag>)
    requires forall i, j :: 0 <= i < j < |xs| ==> xs[i] != xs[j]
    requires forall f :: f in xs
    ensures forall i, j :: 0 <= i < j < |Select(xs, flags)| ==> Select(xs, flags)[i] != Select(xs, flags)[j]
    ensures |Select(xs, flags)| == |flags|
  {
    SelectDistinct(xs, flags);
    var r := Select(xs, flags);
    DistinctCard(r);
    assert (set i | 0 <= i < |r| :: r[i]) == flags;
  }

  lemma SelectDistinct(xs: seq<ExpressionFlag>, flags: set<ExpressionFlag>)
    requires forall i, j :: 0 <= i < j < |xs| ==> xs[i] != xs[j]
    ensures forall i, j :: 0 <= i < j < |Select(xs, flags)| ==> Select(xs, flags)[i] != Select(xs, flags)[j]
  {
    if xs != [] {
      SelectDistinct(xs[1..], flags);
      assert xs[0] !in xs[1..];
    }
  }

  lemma DistinctCard(r: seq<ExpressionFlag>)
    requires forall i, j :: 0 <= i < j < |r| ==> r[i] != r[j]
    ensures |set i | 0 <= i < |r| :: r[i]| == |r|
  {
    if r != [] {
      var last := |r| - 1;
      DistinctCard(r[..last]);
      var s := set i | 0 <= i < last :: r[..last][i];
      assert (set i | 0 <= i < |r| :: r[i]) == s + {r[last]};
      assert r[last] !in s;
    }
  }

  /** Opaque caller-supplied object attached to an expression. */
  datatype ContextObj = ContextObj(token: nat)

  /** An expression: pattern text, flag set, optional id, optional context. */
  datatype Expression = Expression(
    pattern: JString,
    flags: set<ExpressionFlag>,
    id: Option<int>,
    context: Option<ContextObj>)

  /** A reported match: start and inclusive end character positions, the matched text
      (empty unless the expression asked for start-of-match tracking) and the expression. */
  datatype Match = Match(start: int, end: int, matched: JString, expression: Expression)
}
