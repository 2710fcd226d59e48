/** Prefiltering a list of Java patterns with the engine: the patterns the
    engine accepts are compiled into one database, with their position
    among the accepted ones as id; the rest can never be ruled out and are
    returned by every filter call after the engine's candidates. */
module PatternFilters {
  import opened Wrappers
  import opened Expressions
  import opened Errors
  import opened Engine
  import opened ExpressionUtil
  import opened Databases
  import Unicode
  import Scanners
  import E = Utf8Encoder

  /** The candidates split by whether the engine accepts them, in input
      order, with the expressions compiled for the accepted ones. */
  datatype Split<T> = Split(filterable: seq<T>, notFilterable: seq<T>, expressions: seq<Expression>)

  /** Whether the engine accepts a pattern for prefiltering. */
  predicate Accepted(p: JavaPattern, valid: (JString, set<ExpressionFlag>) -> bool) {
    valid(p.regex, FlagsFor(p))
  }

  /** The elements of `xs` that `keep` picks, in order. */
  function Keep<T>(xs: seq<T>, keep: T -> bool): (r: seq<T>)
    ensures |r| <= |xs|
    ensures forall y :: y in r ==> y in xs && keep(y)
  {
    if xs == [] then [] else (if keep(xs[0]) then [xs[0]] else []) + Keep(xs[1..], keep)
  }

  /** Every candidate's pattern, or `None` when the mapper returns `null`. */
  predicate AllMapped<T>(xs: seq<T>, mapper: T -> Option<JavaPattern>) {
    forall i :: 0 <= i < |xs| ==> mapper(xs[i]).Some?
  }

  /** Whether a candidate is filterable, once it is known to have a pattern. */
  function IsFilterable<T>(mapper: T -> Option<JavaPattern>, valid: (JString, set<ExpressionFlag>) -> bool): T -> bool {
    t => mapper(t).Some? && Accepted(mapper(t).value, valid)
  }

  /** Whether a candidate is not filterable. */
  function IsNotFilterable<T>(mapper: T -> Option<JavaPattern>, valid: (JString, set<ExpressionFlag>) -> bool): T -> bool {
    t => !IsFilterable(mapper, valid)(t)
  }

  /** The patterns the engine accepts, and those it refuses. */
  function AcceptedBy(valid: (JString, set<ExpressionFlag>) -> bool): JavaPattern -> bool {
    p => Accepted(p, valid)
  }

  function RefusedBy(valid: (JString, set<ExpressionFlag>) -> bool): JavaPattern -> bool {
    p => !Accepted(p, valid)
  }

  /** The constructor loop of both filters: each candidate's pattern is
      mapped with the number of filterable candidates so far as its id; a
      refused pattern goes to the not-filterable list, an accepted one to
      the filterable list and its expression to the database list. A
      mapper returning `null` throws at that candidate. */
  function Partition<T>(xs: seq<T>, mapper: T -> Option<JavaPattern>, valid: (JString, set<ExpressionFlag>) -> bool)
    : (r: Result<Split<T>, Error>)
    ensures r.Success? <==> AllMapped(xs, mapper)
    ensures r.Failure? ==> r.error == NullPointer
    ensures r.Success? ==> |r.value.filterable| == |r.value.expressions| && |r.value.filterable| + |r.value.notFilterable| == |xs|
    ensures r.Success? ==> forall i :: 0 <= i < |r.value.expressions| ==>
      mapper(r.value.filterable[i]).Some? &&
      Some(r.value.expressions[i]) == MapToExpression(mapper(r.value.filterable[i]).value, i, valid)
    decreases |xs|
  {
    if xs == [] then Success(Split([], [], []))
    else
      var before :- Partition(xs[..|xs| - 1], mapper, valid);
      var last := xs[|xs| - 1];
      assert forall i :: 0 <= i < |xs| - 1 ==> xs[..|xs| - 1][i] == xs[i];
      if mapper(last).None? then Failure(NullPointer)
      else match MapToExpression(mapper(last).value, |before.filterable|, valid)
        case None => Success(before.(notFilterable := before.notFilterable + [last]))
        case Some(e) => Success(Split(before.filterable + [last], before.notFilterable, before.expressions + [e]))
  }

  /** Picking from a sequence extended by one element. */
  lemma KeepSnoc<T>(xs: seq<T>, x: T, keep: T -> bool)
    ensures Keep(xs + [x], keep) == Keep(xs, keep) + (if keep(x) then [x] else [])
    decreases |xs|
  {
    if xs != [] {
      assert (xs + [x])[1..] == xs[1..] + [x];
      KeepSnoc(xs[1..], x, keep);
    }
  }

  /** Picking with two choices that agree on every element picks the same. */
  lemma KeepAgrees<T>(xs: seq<T>, f: T -> bool, g: T -> bool)
    requires forall x :: f(x) == g(x)
    ensures Keep(xs, f) == Keep(xs, g)
    decreases |xs|
  {
    if xs != [] {
      KeepAgrees(xs[1..], f, g);
    }
  }

  /** The two lists are exactly the filterable and the not-filterable
      candidates, each in input order: a candidate lands in one or the
      other, never both. */
  lemma {:induction false} PartitionIsKeep<T>(xs: seq<T>, mapper: T -> Option<JavaPattern>, valid: (JString, set<ExpressionFlag>) -> bool)
    requires AllMapped(xs, mapper)
    ensures Partition(xs, mapper, valid).Success?
    ensures Partition(xs, mapper, valid).value.filterable == Keep(xs, IsFilterable(mapper, valid))
    ensures Partition(xs, mapper, valid).value.notFilterable == Keep(xs, IsNotFilterable(mapper, valid))
    decreases |xs|
  {
    if xs != [] {
      var init := xs[..|xs| - 1];
      var last := xs[|xs| - 1];
      AllMappedPrefix(xs, mapper);
      PartitionIsKeep(init, mapper, valid);
      PartitionSnoc(xs, mapper, valid);
      assert xs == init + [last];
      KeepSnoc(init, last, IsFilterable(mapper, valid));
      KeepSnoc(init, last, IsNotFilterable(mapper, valid));
    }
  }

  lemma {:induction false} AllMappedPrefix<T>(xs: seq<T>, mapper: T -> Option<JavaPattern>)
    requires xs != [] && AllMapped(xs, mapper)
    ensures AllMapped(xs[..|xs| - 1], mapper)
  {
    var init := xs[..|xs| - 1];
    forall i | 0 <= i < |init| ensures mapper(init[i]).Some? {
      assert init[i] == xs[i];
    }
  }

  /** One more candidate lands at the end of exactly one of the two lists. */
  lemma {:induction false} PartitionSnoc<T>(xs: seq<T>, mapper: T -> Option<JavaPattern>, valid: (JString, set<ExpressionFlag>) -> bool)
    requires xs != [] && AllMapped(xs, mapper)
    ensures var before := Partition(xs[..|xs| - 1], mapper, valid).value;
      var after := Partition(xs, mapper, valid).value;
      var last := xs[|xs| - 1];
      after.filterable == before.filterable + (if IsFilterable(mapper, valid)(last) then [last] else []) &&
      after.notFilterable == before.notFilterable + (if IsNotFilterable(mapper, valid)(last) then [last] else [])
  {
    AllMappedPrefix(xs, mapper);
    var before := Partition(xs[..|xs| - 1], mapper, valid).value;
    var last := xs[|xs| - 1];
    assert mapper(last).Some?;
    match MapToExpression(mapper(last).value, |before.filterable|, valid)
    case None =>
      assert Partition(xs, mapper, valid) == Success(before.(notFilterable := before.notFilterable + [last]));
    case Some(e) =>
      assert Partition(xs, mapper, valid) ==
        Success(Split(before.filterable + [last], before.notFilterable, before.expressions + [e]));
  }

  /** Every candidate is in exactly one of the two lists, counted with
      multiplicity. */
  lemma {:induction false} KeepSplits<T>(xs: seq<T>, keep: T -> bool)
    ensures multiset(Keep(xs, keep)) + multiset(Keep(xs, t => !keep(t))) == multiset(xs)
    decreases |xs|
  {
    if xs != [] {
      KeepSplits(xs[1..], keep);
      assert xs == [xs[0]] + xs[1..];
    }
  }

  /** Each accepted candidate's expression carries its position among the
      accepted candidates as id: the ids are `0, 1, 2, ...` in order. */
  lemma DenseIds<T>(xs: seq<T>, mapper: T -> Option<JavaPattern>, valid: (JString, set<ExpressionFlag>) -> bool)
    requires Partition(xs, mapper, valid).Success?
    ensures forall i :: 0 <= i < |Partition(xs, mapper, valid).value.expressions| ==>
      Partition(xs, mapper, valid).value.expressions[i].id == Some(i)
  {
  }

  /** The result list of `filter`: for each match, the filterable candidate
      its expression's id names, in match order; then every not-filterable
      candidate. An id that is missing or names no candidate throws. */
  function Assemble<T>(matches: seq<Match>, filterable: seq<T>, notFilterable: seq<T>): (r: Result<seq<T>, Error>)
    ensures r.Success? <==> forall k :: 0 <= k < |matches| ==>
      matches[k].expression.id.Some? && 0 <= matches[k].expression.id.value < |filterable|
    ensures r.Success? ==> |r.value| == |matches| + |notFilterable|
    ensures r.Success? ==> forall k :: 0 <= k < |matches| ==> r.value[k] == filterable[matches[k].expression.id.value]
    ensures r.Success? ==> r.value[|matches|..] == notFilterable
  {
    if matches == [] then Success(notFilterable)
    else
      var id := matches[0].expression.id;
      if id.None? then Failure(NullPointer)
      else if !(0 <= id.value < |filterable|) then Failure(IndexOutOfBounds)
      else
        var rest :- Assemble(matches[1..], filterable, notFilterable);
        assert forall k :: 1 <= k < |matches| ==> matches[k] == matches[1..][k - 1];
        Success([filterable[id.value]] + rest)
  }

  /** A filter over Java patterns; `matchers` holds the filterable ones by id. */
  datatype PatternFilter = PatternFilter(matchers: seq<JavaPattern>, notFilterable: seq<JavaPattern>,
                                         scanner: Scanners.Scanner, database: Database)

  /** The engine calls a filter's constructor makes. */
  datatype Engines = Engines(compileMulti: CompileRequest -> CompileReply,
                             alloc: (Option<NativeDb>, Scratch) -> AllocReply,
                             valid: (JString, set<ExpressionFlag>) -> bool)

  /** The accepted expressions compiled into a database, a new scanner, and
      its scratch sized for that database; the first failure throws. */
  function Build(expressions: seq<Expression>, scratch: Scratch, engines: Engines)
    : (r: Result<(Database, Scanners.Scanner), Error>)
    ensures r.Success? ==> r.value.0.expressions == expressions && r.value.0.handle.Some?
    ensures r.Success? ==> r.value.1.scratch.Some? && r.value.1.recorded == []
  {
    if |expressions| > INT32_MAX then Failure(OutOfMemory)
    else
      var db :- Compile(expressions, engines.compileMulti);
      var (scanner, failed) := Scanners.AllocScratch(Scanners.NewScanner(scratch), db, engines.alloc);
      if failed.Some? then Failure(failed.value) else Success((db, scanner))
  }

  /** new PatternFilter(patterns). */
  function NewPatternFilter(patterns: seq<JavaPattern>, scratch: Scratch, engines: Engines): (r: Result<PatternFilter, Error>)
    ensures r.Success? ==> r.value.matchers == Keep(patterns, AcceptedBy(engines.valid))
    ensures r.Success? ==> r.value.notFilterable == Keep(patterns, RefusedBy(engines.valid))
    ensures r.Success? ==> r.value.scanner.scratch.Some?
    ensures r.Success? ==> |r.value.database.expressions| == |r.value.matchers|
    ensures r.Success? ==> forall i :: 0 <= i < |r.value.database.expressions| ==>
      r.value.database.expressions[i].id == Some(i) && r.value.database.expressions[i].pattern == r.value.matchers[i].regex
  {
    var mapper := (p: JavaPattern) => Some(p);
    assert AllMapped(patterns, mapper);
    PartitionIsKeep(patterns, mapper, engines.valid);
    var split := Partition(patterns, mapper, engines.valid).value;
    KeepAgrees(patterns, IsFilterable(mapper, engines.valid), AcceptedBy(engines.valid));
    KeepAgrees(patterns, IsNotFilterable(mapper, engines.valid), RefusedBy(engines.valid));
    var (db, scanner) :- Build(split.expressions, scratch, engines);
    Success(PatternFilter(split.filterable, split.notFilterable, scanner, db))
  }

  /** filter(input): the engine's candidates in match order, then every
      pattern the engine could not take. The scanner's recorded list is
      the only state a call changes. `v` picks the scanner's position
      table: `E.AsWritten` is the code, `E.Corrected` the intended one. */
  function Filter(f: PatternFilter, input: JString, scan: (Option<NativeDb>, seq<Byte>, Scratch) -> ScanReply, v: E.Variant)
    : (r: (PatternFilter, Result<seq<JavaPattern>, Error>))
    ensures r.0 == f.(scanner := Scanners.Scan(f.scanner, f.database, input, scan, v).scanner)
    ensures Scanners.Scan(f.scanner, f.database, input, scan, v).result.Failure? ==>
      r.1 == Failure(Scanners.Scan(f.scanner, f.database, input, scan, v).result.error)
    ensures r.1.Success? ==> |r.1.value| >= |f.notFilterable| && r.1.value[|r.1.value| - |f.notFilterable|..] == f.notFilterable
  {
    var scanned := Scanners.Scan(f.scanner, f.database, input, scan, v);
    var after := f.(scanner := scanned.scanner);
    match scanned.result
    case Failure(e) => (after, Failure(e))
    case Success(matches) => (after, Assemble(matches, f.matchers, f.notFilterable))
  }

  /** close: the scanner, then the database. The scanner throws when it is
      closed a second time. */
  function Close(f: PatternFilter): (r: Result<PatternFilter, Error>)
    ensures r.Success? <==> f.scanner.scratch.Some?
    ensures r.Failure? ==> r.error == NullPointer
    ensures r.Success? ==> r.value.scanner.scratch.None? && r.value.database.handle.None?
  {
    var scanner :- Scanners.Close(f.scanner);
    Success(f.(scanner := scanner, database := Databases.Close(f.database).db))
  }

  /** A scan's matches all name expressions of the database it ran over. */
  lemma ScanMatchesComeFromDatabase(sc: Scanners.Scanner, db: Database, input: JString,
                                    scan: (Option<NativeDb>, seq<Byte>, Scratch) -> ScanReply, v: E.Variant)
    requires Scanners.Scan(sc, db, input, scan, v).result.Success?
    ensures forall m :: m in Scanners.Scan(sc, db, input, scan, v).result.value ==> m.expression in db.expressions
  {
    var r := Scanners.Scan(sc, db, input, scan, v);
    var matches := r.result.value;
    if matches != [] {
      var reply := scan(db.handle, Unicode.JdkGetBytes(input), sc.scratch.value);
      var p := Scanners.PositionsFor(input, v).value;
      assert Scanners.ProcessMatches(reply.reported, input, |Unicode.JdkGetBytes(input)|, db, p, v) == r.result;
      forall m | m in matches
        ensures m.expression in db.expressions
      {
        var k :| 0 <= k < |matches| && matches[k] == m;
        assert Scanners.MatchOf(reply.reported[k], input, |Unicode.JdkGetBytes(input)|, db, p, v) == Success(m);
      }
    }
  }

  /** Over a database whose ids are the positions of `filterable`, the
      matches of a successful scan, as written or corrected, always assemble: each names the
      candidate whose expression matched, in match order. */
  lemma AssembleAfterScan<T>(sc: Scanners.Scanner, db: Database, input: JString,
                             scan: (Option<NativeDb>, seq<Byte>, Scratch) -> ScanReply,
                             filterable: seq<T>, notFilterable: seq<T>, v: E.Variant)
    requires forall i :: 0 <= i < |db.expressions| ==> db.expressions[i].id == Some(i)
    requires |db.expressions| == |filterable|
    requires Scanners.Scan(sc, db, input, scan, v).result.Success?
    ensures var matches := Scanners.Scan(sc, db, input, scan, v).result.value;
      var r := Assemble(matches, filterable, notFilterable);
      r.Success? && |r.value| == |matches| + |notFilterable| &&
      forall k :: 0 <= k < |matches| ==>
        matches[k].expression == db.expressions[matches[k].expression.id.value] &&
        r.value[k] == filterable[matches[k].expression.id.value]
  {
    var matches := Scanners.Scan(sc, db, input, scan, v).result.value;
    ScanMatchesComeFromDatabase(sc, db, input, scan, v);
    forall k | 0 <= k < |matches|
      ensures matches[k].expression.id.Some? && 0 <= matches[k].expression.id.value < |filterable|
      ensures matches[k].expression == db.expressions[matches[k].expression.id.value]
    {
      assert matches[k] in matches;
      var j :| 0 <= j < |db.expressions| && db.expressions[j] == matches[k].expression;
      assert db.expressions[j].id == Some(j);
    }
  }

  /** For a filter as built, a scan that succeeds never makes `filter`
      throw: each match's id names the filterable pattern whose expression
      matched, and the not-filterable patterns follow. */
  lemma FilterNeverThrowsAfterScan(f: PatternFilter, input: JString, scan: (Option<NativeDb>, seq<Byte>, Scratch) -> ScanReply,
                                   v: E.Variant)
    requires forall i :: 0 <= i < |f.database.expressions| ==> f.database.expressions[i].id == Some(i)
    requires |f.database.expressions| == |f.matchers|
    requires Scanners.Scan(f.scanner, f.database, input, scan, v).result.Success?
    ensures Filter(f, input, scan, v).1.Success?
    ensures var matches := Scanners.Scan(f.scanner, f.database, input, scan, v).result.value;
      |Filter(f, input, scan, v).1.value| == |matches| + |f.notFilterable| &&
      forall k :: 0 <= k < |matches| ==>
        matches[k].expression == f.database.expressions[matches[k].expression.id.value] &&
        Filter(f, input, scan, v).1.value[k] == f.matchers[matches[k].expression.id.value]
  {
    AssembleAfterScan(f.scanner, f.database, input, scan, f.matchers, f.notFilterable, v);
  }

  /** As written, a filter whose engine reports any match on `"é\uD800"`
      throws an index exception out of the scanner's position table,
      whatever patterns it holds. */
  lemma AsWrittenFilterOverruns(f: PatternFilter, scan: (Option<NativeDb>, seq<Byte>, Scratch) -> ScanReply)
    requires f.scanner.scratch.Some?
    requires scan(f.database.handle, Unicode.JdkGetBytes([0xE9, 0xD800]), f.scanner.scratch.value).status == HS_SUCCESS
    requires scan(f.database.handle, Unicode.JdkGetBytes([0xE9, 0xD800]), f.scanner.scratch.value).reported != []
    ensures Filter(f, [0xE9, 0xD800], scan, E.AsWritten).1 == Failure(IndexOutOfBounds)
  {
    Scanners.AsWrittenScanOverruns(f.scanner, f.database, scan);
  }
}
