/** The scoped filter over arbitrary candidates: each candidate is mapped to
    a Java pattern, and a filter call returns candidates rather than
    matchers. Its scanner and database are released at most once, by
    `close` or by the close action, whichever runs first. */
module ScopedFilters {
  import opened Wrappers
  import opened Expressions
  import opened Errors
  import opened Engine
  import opened ExpressionUtil
  import Databases
  import Scanners
  import E = Utf8Encoder
  import opened PatternFilters

  /** The state `close` and the close action share: the closed flag, the
      database and the scanner. */
  datatype Core = Core(closed: bool, database: Databases.Database, scanner: Scanners.Scanner)

  /** A scoped filter: the shared core, and the candidates split by whether
      the engine accepts their patterns. */
  datatype Impl<T> = Impl(core: Core, filterable: seq<T>, notFilterable: seq<T>)

  /** The life-cycle invariant: an open filter holds its scratch and its
      database handle, a closed one holds neither; and the database's
      expression ids are the positions of the filterable candidates. */
  ghost predicate Valid<T>(s: Impl<T>) {
    (!s.core.closed ==> s.core.scanner.scratch.Some? && s.core.database.handle.Some?) &&
    (s.core.closed ==> s.core.scanner.scratch.None? && s.core.database.handle.None?) &&
    |s.core.database.expressions| == |s.filterable| &&
    forall i :: 0 <= i < |s.core.database.expressions| ==> s.core.database.expressions[i].id == Some(i)
  }

  /** The constructor: the candidates are partitioned (a mapper returning
      `null` throws), the accepted expressions compiled, and a new scanner's
      scratch sized for them. */
  function NewImpl<T>(patterns: seq<T>, mapper: T -> Option<JavaPattern>, scratch: Scratch, engines: Engines)
    : (r: Result<Impl<T>, Error>)
    ensures !AllMapped(patterns, mapper) ==> r == Failure(NullPointer)
    ensures r.Success? ==> !r.value.core.closed
    ensures r.Success? ==> r.value.filterable == Keep(patterns, IsFilterable(mapper, engines.valid))
    ensures r.Success? ==> r.value.notFilterable == Keep(patterns, IsNotFilterable(mapper, engines.valid))
    ensures r.Success? ==> |r.value.core.database.expressions| == |r.value.filterable|
    ensures r.Success? ==> forall i :: 0 <= i < |r.value.filterable| ==>
      mapper(r.value.filterable[i]).Some? &&
      Some(r.value.core.database.expressions[i]) == MapToExpression(mapper(r.value.filterable[i]).value, i, engines.valid)
  {
    var split :- Partition(patterns, mapper, engines.valid);
    PartitionIsKeep(patterns, mapper, engines.valid);
    var (db, scanner) :- Build(split.expressions, scratch, engines);
    Success(Impl(Core(false, db, scanner), split.filterable, split.notFilterable))
  }

  /** A new filter satisfies the life-cycle invariant. */
  lemma NewImplValid<T>(patterns: seq<T>, mapper: T -> Option<JavaPattern>, scratch: Scratch, engines: Engines)
    requires NewImpl(patterns, mapper, scratch, engines).Success?
    ensures Valid(NewImpl(patterns, mapper, scratch, engines).value)
  {
    var s := NewImpl(patterns, mapper, scratch, engines).value;
    forall i | 0 <= i < |s.core.database.expressions|
      ensures s.core.database.expressions[i].id == Some(i)
    {
      assert Some(s.core.database.expressions[i]) == MapToExpression(mapper(s.filterable[i]).value, i, engines.valid);
    }
  }

  /** filter: a `null` input throws, a closed filter refuses; otherwise
      the engine's candidates in match order, then every not-filterable
      candidate. `v` picks the scanner's position table (`E.AsWritten` is
      the code). */
  function FilterImpl<T>(s: Impl<T>, input: Option<JString>, scan: (Option<NativeDb>, seq<Byte>, Scratch) -> ScanReply,
                         v: E.Variant)
    : (r: (Impl<T>, Result<seq<T>, Error>))
    ensures input.None? ==> r == (s, Failure(NullPointer))
    ensures input.Some? && s.core.closed ==> r == (s, Failure(IllegalState))
    ensures r.0.filterable == s.filterable && r.0.notFilterable == s.notFilterable
    ensures r.0.core.closed == s.core.closed && r.0.core.database == s.core.database
    ensures r.0.core.scanner.scratch == s.core.scanner.scratch
    ensures r.1.Success? ==> |r.1.value| >= |s.notFilterable| && r.1.value[|r.1.value| - |s.notFilterable|..] == s.notFilterable
  {
    if input.None? then (s, Failure(NullPointer))
    else if s.core.closed then (s, Failure(IllegalState))
    else
      var scanned := Scanners.Scan(s.core.scanner, s.core.database, input.value, scan, v);
      var after := s.(core := s.core.(scanner := scanned.scanner));
      match scanned.result
      case Failure(e) => (after, Failure(e))
      case Success(matches) => (after, Assemble(matches, s.filterable, s.notFilterable))
  }

  /** `filter` keeps the invariant, and on an open filter it throws only
      when the engine's scan does: every match names a filterable
      candidate, in match order, and the not-filterable ones follow. */
  lemma FilterImplSound<T>(s: Impl<T>, input: JString, scan: (Option<NativeDb>, seq<Byte>, Scratch) -> ScanReply,
                           v: E.Variant)
    requires Valid(s)
    ensures Valid(FilterImpl(s, Some(input), scan, v).0)
    ensures !s.core.closed && Scanners.Scan(s.core.scanner, s.core.database, input, scan, v).result.Success? ==>
      var matches := Scanners.Scan(s.core.scanner, s.core.database, input, scan, v).result.value;
      var r := FilterImpl(s, Some(input), scan, v).1;
      r.Success? && |r.value| == |matches| + |s.notFilterable| &&
      forall k :: 0 <= k < |matches| ==> r.value[k] == s.filterable[matches[k].expression.id.value]
  {
    if !s.core.closed && Scanners.Scan(s.core.scanner, s.core.database, input, scan, v).result.Success? {
      AssembleAfterScan(s.core.scanner, s.core.database, input, scan, s.filterable, s.notFilterable, v);
    }
  }

  /** The outcome of running `close`: the core afterwards, whether this
      call released the scanner and database, and what it threw. */
  datatype Closing = Closing(core: Core, released: bool, error: Option<Error>)

  /** The shared close routine, used by `close` and by the close action
      alike: only the call that flips the flag from open to closed
      releases the scanner, then the database. */
  function CloseCore(c: Core): (r: Closing)
    ensures r.core.closed
    ensures c.closed ==> r == Closing(c, false, None)
    ensures !c.closed && c.scanner.scratch.Some? ==>
      r.released && r.error.None? &&
      r.core.scanner.scratch.None? && r.core.database.handle.None? &&
      r.core.database.expressions == c.database.expressions
    ensures !c.closed && c.scanner.scratch.None? ==> r.error == Some(NullPointer)
  {
    if c.closed then Closing(c, false, None)
    else match Scanners.Close(c.scanner)
      case Failure(e) => Closing(c.(closed := true), false, Some(e))
      case Success(scanner) => Closing(Core(true, Databases.Close(c.database).db, scanner), true, None)
  }

  /** close on the filter itself. */
  function CloseImpl<T>(s: Impl<T>): (r: (Impl<T>, bool))
    ensures r.0.core.closed && r.0.filterable == s.filterable && r.0.notFilterable == s.notFilterable
    ensures Valid(s) ==> Valid(r.0) && (r.1 <==> !s.core.closed)
  {
    var closing := CloseCore(s.core);
    (s.(core := closing.core), closing.released)
  }

  /** The scanner and database are released at most once: `n` calls of
      `close` or of the close action on the shared core, in any mix,
      release exactly once if the filter was open and never otherwise. */
  function Releases(c: Core, n: nat): (r: (Core, nat))
    decreases n
  {
    if n == 0 then (c, 0)
    else
      var closing := CloseCore(c);
      var rest := Releases(closing.core, n - 1);
      (rest.0, rest.1 + (if closing.released then 1 else 0))
  }

  lemma {:induction false} ReleasedAtMostOnce(c: Core, n: nat)
    requires c.closed || c.scanner.scratch.Some?
    ensures Releases(c, n).1 == (if n > 0 && !c.closed then 1 else 0)
    ensures n > 0 ==> Releases(c, n).0 == CloseCore(c).core
    decreases n
  {
    if n > 0 {
      var closing := CloseCore(c);
      ReleasedAtMostOnce(closing.core, n - 1);
      if n > 1 {
        assert CloseCore(closing.core).core == closing.core;
      }
    }
  }
}
