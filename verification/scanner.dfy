/** The scanner: a scratch space that is either held or released, and the
    translation of the byte offsets the engine reports into `Match` values
    over the scanned string. */
module Scanners {
  import opened Wrappers
  import opened Expressions
  import opened Errors
  import opened Engine
  import opened Unicode
  import opened Databases
  import P = Utf8Positions
  import E = Utf8Encoder

  /** `scratch` is `None` once the scanner has been closed; `recorded` is the
      list of tuples the match callback collected during the last scan. */
  datatype Scanner = Scanner(scratch: Option<Scratch>, recorded: seq<MatchTuple>)

  /** A new scanner: a scratch object not yet sized for any database. */
  function NewScanner(scratch: Scratch): (sc: Scanner)
    ensures sc.scratch == Some(scratch) && sc.recorded == []
  {
    Scanner(Some(scratch), [])
  }

  /** getSize: refused once the scratch has been released. */
  function GetSize(sc: Scanner, scratchSize: Scratch -> nat): (r: Result<nat, Error>)
    ensures r.Failure? <==> sc.scratch.None?
    ensures r.Failure? ==> r.error == IllegalState
    ensures r.Success? ==> r.value == scratchSize(sc.scratch.value)
  {
    match sc.scratch
    case None => Failure(IllegalState)
    case Some(s) => Success(scratchSize(s))
  }

  /** allocScratch: refused once released; otherwise the engine sizes the
      scratch for the database (keeping whatever scratch it leaves behind),
      and a failing status becomes an exception. */
  function AllocScratch(sc: Scanner, db: Database, alloc: (Option<NativeDb>, Scratch) -> AllocReply)
    : (r: (Scanner, Option<Error>))
    ensures sc.scratch.None? ==> r == (sc, Some(IllegalState))
    ensures sc.scratch.Some? ==>
      var reply := alloc(db.handle, sc.scratch.value);
      r.0 == sc.(scratch := Some(reply.scratch)) &&
      (r.1.None? <==> reply.status == HS_SUCCESS) &&
      (r.1.Some? ==> r.1.value == HyperscanError(reply.status))
  {
    match sc.scratch
    case None => (sc, Some(IllegalState))
    case Some(s) =>
      var reply := alloc(db.handle, s);
      (Scanner(Some(reply.scratch), sc.recorded),
       if reply.status != HS_SUCCESS then Some(HyperscanError(reply.status)) else None)
  }

  /** close: frees the scratch and forgets it. The scratch is dereferenced
      without a check, so closing a closed scanner throws. */
  function Close(sc: Scanner): (r: Result<Scanner, Error>)
    ensures r.Success? <==> sc.scratch.Some?
    ensures r.Failure? ==> r.error == NullPointer
    ensures r.Success? ==> r.value.scratch.None? && r.value.recorded == sc.recorded
  {
    if sc.scratch.None? then Failure(NullPointer) else Success(Scanner(None, sc.recorded))
  }

  /** How byte offsets become char positions: unchanged when every char took
      one byte, otherwise through the byte-to-char table. */
  datatype Positions = Identity | Table(table: seq<int>)

  /** `position.apply(b)`: a table lookup outside the table throws. */
  function PositionOf(p: Positions, b: int): (r: Result<int, Error>)
    ensures p.Identity? ==> r == Success(b)
    ensures p.Table? ==> (r.Success? <==> 0 <= b < |p.table|)
    ensures p.Table? && r.Success? ==> r.value == p.table[b]
    ensures r.Failure? ==> r.error == IndexOutOfBounds
  {
    match p
    case Identity => Success(b)
    case Table(t) => if 0 <= b < |t| then Success(t[b]) else Failure(IndexOutOfBounds)
  }

  /** `String.substring(begin, end)`: the chars in `[begin, end)`, or an
      exception when the range is not inside the string. */
  function Substring(s: JString, begin: int, end: int): (r: Result<JString, Error>)
    ensures r.Success? <==> 0 <= begin <= end <= |s|
    ensures r.Success? ==> |r.value| == end - begin && forall k :: 0 <= k < end - begin ==> r.value[k] == s[begin + k]
    ensures r.Failure? ==> r.error == IndexOutOfBounds
  {
    if 0 <= begin <= end <= |s| then Success(s[begin..end]) else Failure(IndexOutOfBounds)
  }

  /** Whether the matched text is cut out of the input. As written, every
      expression with start-of-match tracking asks for it; corrected, an
      empty input has no text to cut and the match is the empty string. */
  predicate TakesText(e: Expression, bytesLength: nat, v: E.Variant) {
    SomLeftmost in e.flags && (v == E.AsWritten || bytesLength > 0)
  }

  /** One reported tuple as `processMatches` turns it into a match: the
      exclusive end is raised to at least 1, the start and the inclusive end
      go through the positions, and the text is cut out only for
      start-of-match expressions; an empty input reports `(0, 0)`. */
  function MatchOf(t: MatchTuple, input: JString, bytesLength: nat, db: Database, p: Positions, v: E.Variant)
    : (r: Result<Match, Error>)
    ensures GetExpression(db, t.id).Failure? ==> r == Failure(IndexOutOfBounds)
    ensures r.Success? ==> GetExpression(db, t.id) == Success(r.value.expression)
    ensures r.Success? && bytesLength > 0 ==>
      PositionOf(p, t.from) == Success(r.value.start) &&
      PositionOf(p, (if t.to < 1 then 1 else t.to) - 1) == Success(r.value.end)
    ensures r.Success? && bytesLength == 0 ==> r.value.start == 0 && r.value.end == 0
    ensures r.Success? && !TakesText(r.value.expression, bytesLength, v) ==> r.value.matched == []
    ensures r.Success? && TakesText(r.value.expression, bytesLength, v) && bytesLength > 0 ==>
      0 <= r.value.start <= r.value.end + 1 <= |input| && r.value.matched == input[r.value.start..r.value.end + 1]
    ensures r.Failure? ==> r.error == IndexOutOfBounds
  {
    var to := if t.to < 1 then 1 else t.to;
    var expression :- GetExpression(db, t.id);
    var start :- PositionOf(p, t.from);
    var end :- PositionOf(p, to - 1);
    var matched :- if TakesText(expression, bytesLength, v) then Substring(input, start, end + 1) else Success([]);
    if bytesLength > 0 then Success(Match(start, end, matched, expression))
    else Success(Match(0, 0, matched, expression))
  }

  /** processMatches: one match per recorded tuple, in the order recorded;
      the first tuple that throws ends the scan. */
  function ProcessMatches(tuples: seq<MatchTuple>, input: JString, bytesLength: nat, db: Database, p: Positions, v: E.Variant)
    : (r: Result<seq<Match>, Error>)
    ensures r.Success? ==> |r.value| == |tuples|
    ensures r.Success? ==> forall i :: 0 <= i < |tuples| ==>
      MatchOf(tuples[i], input, bytesLength, db, p, v) == Success(r.value[i])
    ensures r.Success? <==> forall i :: 0 <= i < |tuples| ==> MatchOf(tuples[i], input, bytesLength, db, p, v).Success?
    ensures r.Failure? ==> r.error == IndexOutOfBounds
  {
    if tuples == [] then Success([])
    else
      var m :- MatchOf(tuples[0], input, bytesLength, db, p, v);
      var rest :- ProcessMatches(tuples[1..], input, bytesLength, db, p, v);
      assert forall i :: 1 <= i < |tuples| ==> tuples[i] == tuples[1..][i - 1];
      Success([m] + rest)
  }

  /** The table's sizing: by code point as written, by bytes written once
      corrected. */
  function SizingOf(v: E.Variant): P.Sizing {
    if v == E.AsWritten then P.CodePointWidth else P.WrittenWidth
  }

  /** The positions `scan` uses for `input`: the identity when the UTF-8
      bytes are as many as the chars, otherwise the byte-to-char table. */
  function PositionsFor(input: JString, v: E.Variant): (r: Result<Positions, Error>)
    ensures |JdkGetBytes(input)| == |input| ==> r == Success(Identity)
    ensures |JdkGetBytes(input)| != |input| ==>
      match P.PositionTable(input, |JdkGetBytes(input)|, SizingOf(v))
      case Success(t) => r == Success(Table(t))
      case Failure(e) => r == Failure(e)
  {
    var bytes := JdkGetBytes(input);
    if |bytes| == |input| then Success(Identity)
    else
      var table :- P.PositionTable(input, |bytes|, SizingOf(v));
      Success(Table(table))
  }

  /** A scan's effect on the scanner and its result. */
  datatype Scanned = Scanned(scanner: Scanner, result: Result<seq<Match>, Error>)

  /** scan: refused once released. Otherwise the recorded list is cleared,
      the engine scans `getBytes(UTF_8)` and the callback records every
      tuple it reports (it always asks the engine to go on); a failing
      status throws, no tuple gives the empty list, and the tuples become
      matches in the order they were reported. */
  function Scan(sc: Scanner, db: Database, input: JString,
                scan: (Option<NativeDb>, seq<Byte>, Scratch) -> ScanReply, v: E.Variant): (r: Scanned)
    ensures sc.scratch.None? ==> r == Scanned(sc, Failure(IllegalState))
    ensures sc.scratch.Some? ==>
      var reply := scan(db.handle, JdkGetBytes(input), sc.scratch.value);
      r.scanner == Scanner(sc.scratch, reply.reported) &&
      (reply.status != HS_SUCCESS ==> r.result == Failure(HyperscanError(reply.status))) &&
      (reply.status == HS_SUCCESS && reply.reported == [] ==> r.result == Success([])) &&
      (r.result.Success? ==> |r.result.value| == |reply.reported|) &&
      (reply.status == HS_SUCCESS && reply.reported != [] ==>
        match PositionsFor(input, v)
        case Failure(e) => r.result == Failure(e)
        case Success(p) => r.result == ProcessMatches(reply.reported, input, |JdkGetBytes(input)|, db, p, v)) &&
      (r.result.Success? && reply.reported != [] ==>
        PositionsFor(input, v).Success? &&
        forall k :: 0 <= k < |reply.reported| ==>
          MatchOf(reply.reported[k], input, |JdkGetBytes(input)|, db, PositionsFor(input, v).value, v)
            == Success(r.result.value[k])) &&
      (r.result.Failure? ==> r.result.error == HyperscanError(reply.status) || r.result.error == IndexOutOfBounds)
  {
    match sc.scratch
    case None => Scanned(sc, Failure(IllegalState))
    case Some(scratch) =>
      var bytes := JdkGetBytes(input);
      var reply := scan(db.handle, bytes, scratch);
      var after := Scanner(sc.scratch, reply.reported);
      if reply.status != HS_SUCCESS then Scanned(after, Failure(HyperscanError(reply.status)))
      else if reply.reported == [] then Scanned(after, Success([]))
      else match PositionsFor(input, v)
        case Failure(e) => Scanned(after, Failure(e))
        case Success(p) => Scanned(after, ProcessMatches(reply.reported, input, |bytes|, db, p, v))
  }

  // ----- properties -----

  /** What a scan returns, and the scanner it leaves, do not depend on what
      an earlier scan recorded. */
  lemma ScanForgetsRecorded(sc: Scanner, recorded: seq<MatchTuple>, db: Database, input: JString,
                            scan: (Option<NativeDb>, seq<Byte>, Scratch) -> ScanReply, v: E.Variant)
    ensures sc.scratch.Some? ==> Scan(sc, db, input, scan, v) == Scan(sc.(recorded := recorded), db, input, scan, v)
  {
  }

  /** Once closed, every guarded operation is refused with an
      IllegalStateException, and closing again throws. */
  lemma ClosedScannerRefuses(sc: Scanner, db: Database, input: JString, scratchSize: Scratch -> nat,
                             alloc: (Option<NativeDb>, Scratch) -> AllocReply,
                             scan: (Option<NativeDb>, seq<Byte>, Scratch) -> ScanReply, v: E.Variant)
    requires Close(sc).Success?
    ensures GetSize(Close(sc).value, scratchSize) == Failure(IllegalState)
    ensures AllocScratch(Close(sc).value, db, alloc).1 == Some(IllegalState)
    ensures Scan(Close(sc).value, db, input, scan, v).result == Failure(IllegalState)
    ensures Close(Close(sc).value) == Failure(NullPointer)
  {
  }

  /** Sized by bytes written, the table never holds fewer entries than the
      chars it covers. */
  lemma {:induction false} RunsCoverChars(s: JString, i: nat)
    requires i <= |s|
    ensures |P.RunsFrom(s, i, P.WrittenWidth)| >= |s| - i
    decreases |s| - i
  {
    if i < |s| {
      RunsCoverChars(s, P.Next(s, i));
    }
  }

  /** When the table has exactly one entry per char, entry `k` is `k`: every
      char took one byte. */
  lemma {:induction false} TightRunsAreIdentity(s: JString, i: nat)
    requires i <= |s| && |P.RunsFrom(s, i, P.WrittenWidth)| == |s| - i
    ensures forall k :: 0 <= k < |s| - i ==> P.RunsFrom(s, i, P.WrittenWidth)[k] == i + k
    decreases |s| - i
  {
    if i < |s| {
      var n := P.Next(s, i);
      var w := P.WidthAt(s, i, P.WrittenWidth);
      var rest := P.RunsFrom(s, n, P.WrittenWidth);
      assert P.RunsFrom(s, i, P.WrittenWidth) == seq(w, _ => i) + rest;
      RunsCoverChars(s, n);
      assert w == 1 && n == i + 1;
      TightRunsAreIdentity(s, n);
      forall k | 0 <= k < |s| - i
        ensures P.RunsFrom(s, i, P.WrittenWidth)[k] == i + k
      {
        if k > 0 {
          assert P.RunsFrom(s, i, P.WrittenWidth)[k] == rest[k - 1];
        }
      }
    }
  }

  /** The fast path is sound: when `getBytes(UTF_8)` is as long as the
      string, the byte-to-char table sized by bytes written is the
      identity, so passing offsets through unchanged gives the same
      positions the table would. */
  lemma FastPathIsTable(input: JString)
    requires |JdkGetBytes(input)| == |input|
    ensures P.PositionTable(input, |input|, P.WrittenWidth) == Success(seq(|input|, k => k))
  {
    P.WrittenTableFits(input);
    TightRunsAreIdentity(input, 0);
    assert P.Runs(input, P.WrittenWidth) == seq(|input|, k => k);
    assert P.Runs(input, P.WrittenWidth) + seq(0, _ => 0) == P.Runs(input, P.WrittenWidth);
  }

  /** An all-ASCII string is its own UTF-8 encoding, so it takes the fast path. */
  lemma {:induction false} AsciiBytesFrom(s: JString, i: nat)
    requires i <= |s| && forall k :: 0 <= k < |s| ==> s[k] < 0x80
    ensures JdkBytesFrom(s, i) == s[i..]
    decreases |s| - i
  {
    if i < |s| {
      AsciiBytesFrom(s, i + 1);
      assert !PairAt(s, i);
      assert s[i..] == [s[i]] + s[i + 1..];
    }
  }

  lemma AsciiTakesFastPath(input: JString, v: E.Variant)
    requires forall k :: 0 <= k < |input| ==> input[k] < 0x80
    ensures JdkGetBytes(input) == input
    ensures PositionsFor(input, v) == Success(Identity)
  {
    AsciiBytesFrom(input, 0);
  }

  /** Once corrected, the table is always built: it is exactly as long as
      the bytes scanned. */
  lemma CorrectedPositionsAlwaysBuild(input: JString)
    ensures PositionsFor(input, E.Corrected).Success?
  {
    P.WrittenTableFits(input);
  }

  /** As written, the table can only be built for a well-formed string (or
      one that takes the fast path): one unpaired surrogate in a string that
      needs the table makes the fill overrun it. */
  lemma AsWrittenPositionsFailIffIllFormed(input: JString)
    ensures PositionsFor(input, E.AsWritten).Failure? <==>
      |JdkGetBytes(input)| != |input| && !WellFormed(input)
    ensures PositionsFor(input, E.AsWritten).Failure? ==> PositionsFor(input, E.AsWritten).error == IndexOutOfBounds
  {
    P.CodePointTableFitsIffWellFormed(input);
  }

  /** `scan("é\ud800")` with any match reported throws as written; the
      corrected table is built. */
  lemma AsWrittenScanOverruns(sc: Scanner, db: Database, scan: (Option<NativeDb>, seq<Byte>, Scratch) -> ScanReply)
    requires sc.scratch.Some?
    requires scan(db.handle, JdkGetBytes([0xE9, 0xD800]), sc.scratch.value).status == HS_SUCCESS
    requires scan(db.handle, JdkGetBytes([0xE9, 0xD800]), sc.scratch.value).reported != []
    ensures Scan(sc, db, [0xE9, 0xD800], scan, E.AsWritten).result == Failure(IndexOutOfBounds)
    ensures PositionsFor([0xE9, 0xD800], E.Corrected).Success?
  {
    P.LoneSurrogateOverruns();
    CorrectedPositionsAlwaysBuild([0xE9, 0xD800]);
  }

  /** As written, an empty match on an empty input for an expression with
      start-of-match tracking cuts `substring(0, 1)` out of the empty
      string and throws. */
  lemma AsWrittenEmptyInputThrows(e: Expression, handle: Option<NativeDb>)
    requires SomLeftmost in e.flags
    ensures MatchOf(MatchTuple(0, 0, 0), [], 0, Database(handle, [e]), Identity, E.AsWritten) == Failure(IndexOutOfBounds)
  {
  }

  /** Corrected, every tuple on an empty input whose id resolves becomes the
      match `(0, 0, "")` of its expression. */
  lemma CorrectedEmptyInputMatches(t: MatchTuple, db: Database)
    requires 0 <= t.id < |db.expressions|
    ensures MatchOf(t, [], 0, db, Identity, E.Corrected) == Success(Match(0, 0, [], db.expressions[t.id]))
  {
  }

  /** An empty input always takes the fast path. */
  lemma EmptyInputIsIdentity(v: E.Variant)
    ensures JdkGetBytes([]) == [] && PositionsFor([], v) == Success(Identity)
  {
  }
}
