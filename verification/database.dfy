/** A compiled database: the native handle plus the expressions it was
    compiled from, in id order. Covers compilation and its error
    translation, the closed state, and the save/load stream format. */
module Databases {
  import opened Wrappers
  import opened Expressions
  import opened Errors
  import opened Engine
  import opened DataStreams
  import U = Util
  import opened Sequences

  /** `handle` is `None` once the database has been freed. */
  datatype Database = Database(handle: Option<NativeDb>, expressions: seq<Expression>)

  /** A Java list: no more elements than an int counts. */
  type ExpressionList = xs: seq<Expression> | |xs| <= INT32_MAX

  /** handleErrors: success on status 0; on a compile error, the engine's
      message and the expression at the index it names (an index outside the
      list fails the list lookup instead); any other status through the
      status table. */
  function HandleErrors(reply: CompileReply, expressions: seq<Expression>): (r: Option<Error>)
    ensures r.None? <==> reply.status == HS_SUCCESS
    ensures reply.status == HS_COMPILE_ERROR && 0 <= reply.errorExpression < |expressions| ==>
      r == Some(CompileError(reply.errorMessage, expressions[reply.errorExpression]))
    ensures reply.status == HS_COMPILE_ERROR && !(0 <= reply.errorExpression < |expressions|) ==>
      r == Some(IndexOutOfBounds)
    ensures reply.status != HS_SUCCESS && reply.status != HS_COMPILE_ERROR ==>
      r == Some(U.HsErrorIntToException(reply.status))
  {
    if reply.status == HS_SUCCESS then None
    else if reply.status == HS_COMPILE_ERROR then
      if 0 <= reply.errorExpression < |expressions| then
        Some(CompileError(reply.errorMessage, expressions[reply.errorExpression]))
      else Some(IndexOutOfBounds)
    else Some(U.HsErrorIntToException(reply.status))
  }

  /** The arrays handed to the engine: each expression's pattern and flag
      word, and its position in the list as its id. */
  function CompileRequestOf(expressions: seq<Expression>): (q: CompileRequest)
    ensures |q.patterns| == |q.flags| == |q.ids| == |expressions| && q.mode == HS_MODE_BLOCK
    ensures forall i :: 0 <= i < |expressions| ==>
      q.patterns[i] == expressions[i].pattern && q.flags[i] == U.FlagSetBits(expressions[i].flags) && q.ids[i] == i
  {
    CompileRequest(seq(|expressions|, i requires 0 <= i < |expressions| => expressions[i].pattern),
                   seq(|expressions|, i requires 0 <= i < |expressions| => U.FlagSetBits(expressions[i].flags)),
                   seq(|expressions|, i => i),
                   HS_MODE_BLOCK)
  }

  /** compile(List): one engine call for all expressions; the database keeps
      the list it was given. */
  function Compile(expressions: ExpressionList, compileMulti: CompileRequest -> CompileReply): (r: Result<Database, Error>)
    ensures r.Success? <==> compileMulti(CompileRequestOf(expressions)).status == HS_SUCCESS
    ensures r.Success? ==>
      r.value == Database(Some(compileMulti(CompileRequestOf(expressions)).db), expressions)
    ensures r.Failure? ==> Some(r.error) == HandleErrors(compileMulti(CompileRequestOf(expressions)), expressions)
  {
    var reply := compileMulti(CompileRequestOf(expressions));
    match HandleErrors(reply, expressions)
    case Some(e) => Failure(e)
    case None => Success(Database(Some(reply.db), expressions))
  }

  /** compile(Expression): the single-pattern engine call; the database
      holds just that expression. */
  function CompileOne(expression: Expression, compileSingle: (JString, bv32, int) -> CompileReply): (r: Result<Database, Error>)
    ensures r.Success? <==> compileSingle(expression.pattern, U.FlagSetBits(expression.flags), HS_MODE_BLOCK).status == HS_SUCCESS
    ensures r.Success? ==> r.value.expressions == [expression] && r.value.handle.Some?
  {
    var reply := compileSingle(expression.pattern, U.FlagSetBits(expression.flags), HS_MODE_BLOCK);
    match HandleErrors(reply, [expression])
    case Some(e) => Failure(e)
    case None => Success(Database(Some(reply.db), [expression]))
  }

  /** A compile error always names one of the expressions that were compiled. */
  lemma CompileErrorNamesInput(expressions: ExpressionList, compileMulti: CompileRequest -> CompileReply)
    requires Compile(expressions, compileMulti).Failure?
    ensures Compile(expressions, compileMulti).error.CompileError? ==>
      Compile(expressions, compileMulti).error.expression in expressions
  {
  }

  /** getExpression: the expression at a list index; no closed check. */
  function GetExpression(db: Database, id: int): (r: Result<Expression, Error>)
    ensures r.Success? <==> 0 <= id < |db.expressions|
    ensures r.Failure? ==> r.error == IndexOutOfBounds
    ensures r.Success? ==> r.value == db.expressions[id] && r.value in db.expressions
  {
    if 0 <= id < |db.expressions| then Success(db.expressions[id]) else Failure(IndexOutOfBounds)
  }

  /** Every id the engine was given resolves back to the expression it was
      given for, so a reported match finds its expression. */
  lemma CompiledIdsResolve(expressions: ExpressionList, compileMulti: CompileRequest -> CompileReply, k: int)
    requires Compile(expressions, compileMulti).Success? && 0 <= k < |expressions|
    ensures GetExpression(Compile(expressions, compileMulti).value, CompileRequestOf(expressions).ids[k]) ==
      Success(expressions[k])
  {
  }

  /** The single-expression compile agrees with compiling a one-element list
      whenever the engine treats a single pattern as a list of one with id 0. */
  lemma CompileOneIsListOfOne(e: Expression, compileSingle: (JString, bv32, int) -> CompileReply,
                              compileMulti: CompileRequest -> CompileReply)
    requires compileSingle(e.pattern, U.FlagSetBits(e.flags), HS_MODE_BLOCK) ==
      compileMulti(CompileRequest([e.pattern], [U.FlagSetBits(e.flags)], [0], HS_MODE_BLOCK))
    ensures CompileOne(e, compileSingle) == Compile([e], compileMulti)
  {
    assert CompileRequestOf([e]) == CompileRequest([e.pattern], [U.FlagSetBits(e.flags)], [0], HS_MODE_BLOCK);
  }

  /** getSize: refused once freed; otherwise the engine's size. */
  function GetSize(db: Database, databaseSize: NativeDb -> nat): (r: Result<nat, Error>)
    ensures r.Failure? <==> db.handle.None?
    ensures r.Failure? ==> r.error == IllegalState
    ensures r.Success? ==> r.value == databaseSize(db.handle.value)
  {
    match db.handle
    case None => Failure(IllegalState)
    case Some(h) => Success(databaseSize(h))
  }

  /** The database after closing it, and the handle that call freed, if any. */
  datatype Closed = Closed(db: Database, freed: Option<NativeDb>)

  /** close / finalize: frees the handle if there still is one, then forgets it. */
  function Close(db: Database): (r: Closed)
    ensures r.db.handle.None? && r.db.expressions == db.expressions
    ensures r.freed == db.handle
  {
    Closed(Database(None, db.expressions), db.handle)
  }

  /** Closing twice frees once: the second close finds nothing to free and
      changes nothing. */
  lemma CloseIdempotent(db: Database)
    ensures Close(Close(db).db).freed.None?
    ensures Close(Close(db).db).db == Close(db).db
  {
  }

  // ----- save -----

  /** What `save` wrote to each stream, and the exception it ended with, if any. */
  datatype Saved = Saved(expressionsOut: seq<Byte>, databaseOut: seq<Byte>, error: Option<Error>)

  /** One expression's record: its pattern by `writeUTF`, its flag count,
      and the engine bits of each flag in ordinal order. */
  function ExpressionRecord(e: Expression): Result<seq<Byte>, Error> {
    var pattern :- WriteUtf(e.pattern);
    var flags := FlagsInOrder(e.flags);
    Success(pattern + WriteInt(|flags|) + FlagWords(flags))
  }

  /** A flag's engine bits as the int that `writeInt` takes. */
  function FlagWord(f: ExpressionFlag): (w: Int32)
    ensures w == Bits(f) as int
  {
    match f
    case NoFlag => 0
    case Caseless => 1
    case DotAll => 2
    case Multiline => 4
    case SingleMatch => 8
    case AllowEmpty => 16
    case Utf8 => 32
    case Ucp => 64
    case Prefilter => 128
    case SomLeftmost => 256
    case Combination => 512
    case Quiet => 1024
  }

  function FlagWords(flags: seq<ExpressionFlag>): (b: seq<Byte>)
    ensures |b| == 4 * |flags|
  {
    if flags == [] then [] else WriteInt(FlagWord(flags[0])) + FlagWords(flags[1..])
  }

  /** The records of `xs` one after another, stopping at the first pattern
      `writeUTF` refuses: what was written so far stays written. */
  function ExpressionRecords(xs: seq<Expression>): (r: (seq<Byte>, Option<Error>))
    ensures r.1.Some? ==> r.1.value == UtfDataFormat
  {
    if xs == [] then ([], None)
    else match ExpressionRecord(xs[0])
      case Failure(e) => ([], Some(e))
      case Success(b) =>
        var rest := ExpressionRecords(xs[1..]);
        (b + rest.0, rest.1)
  }

  /** save(expressionsOut, databaseOut): the expression count and records go
      to the first stream, then the serialized database, length first, to
      the second. A refused pattern stops before the engine is called; a
      failed serialization leaves the expression part written. */
  function Save(db: Database, serialize: Option<NativeDb> -> SerializeReply): (r: Saved)
    requires |db.expressions| <= INT32_MAX
    ensures (forall e :: e in db.expressions ==> WriteUtf(e.pattern).Success?) ==> r.error.None? || r.error == Some(U.HsErrorIntToException(serialize(db.handle).status))
    ensures r.error.None? <==>
      (forall e :: e in db.expressions ==> WriteUtf(e.pattern).Success?) && serialize(db.handle).status == HS_SUCCESS
    ensures r.error.None? ==> r.databaseOut == WriteInt(|serialize(db.handle).blob|) + serialize(db.handle).blob
    ensures r.databaseOut != [] ==> r.error.None?
    ensures |r.expressionsOut| >= 4 && r.expressionsOut[..4] == WriteInt(|db.expressions|)
  {
    var (records, failed) := ExpressionRecords(db.expressions);
    RecordsFail(db.expressions);
    var expressionsOut := WriteInt(|db.expressions|) + records;
    assert expressionsOut[..4] == WriteInt(|db.expressions|);
    if failed.Some? then Saved(expressionsOut, [], failed)
    else
      var reply := serialize(db.handle);
      if reply.status != HS_SUCCESS then Saved(expressionsOut, [], Some(U.HsErrorIntToException(reply.status)))
      else Saved(expressionsOut, WriteInt(|reply.blob|) + reply.blob, None)
  }

  lemma {:induction false} RecordsFail(xs: seq<Expression>)
    ensures ExpressionRecords(xs).1.None? <==> forall e :: e in xs ==> WriteUtf(e.pattern).Success?
  {
    if xs != [] {
      RecordsFail(xs[1..]);
      assert forall e :: e in xs <==> e == xs[0] || e in xs[1..];
    }
  }

  /** save(out): both parts on the same stream, expressions first. A
      refused pattern throws UTFDataFormatException and a failed
      serialization the status table's exception. */
  function SaveToOne(db: Database, serialize: Option<NativeDb> -> SerializeReply): (r: Result<seq<Byte>, Error>)
    requires |db.expressions| <= INT32_MAX
    ensures r.Success? <==>
      (forall e :: e in db.expressions ==> WriteUtf(e.pattern).Success?) && serialize(db.handle).status == HS_SUCCESS
    ensures r.Failure? ==>
      r.error == UtfDataFormat || r.error == U.HsErrorIntToException(serialize(db.handle).status)
    ensures r.Success? ==> |r.value| >= 8 + |serialize(db.handle).blob| && r.value[..4] == WriteInt(|db.expressions|)
    ensures r.Success? ==>
      r.value[|r.value| - 4 - |serialize(db.handle).blob|..] == WriteInt(|serialize(db.handle).blob|) + serialize(db.handle).blob
  {
    var saved := Save(db, serialize);
    if saved.error.Some? then Failure(saved.error.value)
    else
      var out := saved.expressionsOut + saved.databaseOut;
      assert out[..4] == saved.expressionsOut[..4];
      assert out[|out| - |saved.databaseOut|..] == saved.databaseOut;
      Success(out)
  }

  // ----- load -----

  /** The flag set read from `n` bit words; a word naming no flag makes
      `EnumSet.add(null)` throw. A count of zero or less reads nothing. */
  function ReadFlags(b: seq<Byte>, n: int): (r: Result<(set<ExpressionFlag>, seq<Byte>), Error>)
    ensures r.Failure? ==> r.error == EndOfFile || r.error == NullPointer
    ensures r.Success? ==> |r.value.1| <= |b|
    ensures n <= 0 ==> r == Success(({}, b))
    ensures 0 < n && ReadInt(b).Failure? ==> r == Failure(EndOfFile)
    ensures 0 < n && ReadInt(b).Success? && FlagOfBits(ReadInt(b).value.0).None? ==> r == Failure(NullPointer)
    ensures 0 < n && r.Success? ==>
      ReadInt(b).Success? && FlagOfBits(ReadInt(b).value.0).Some? && FlagOfBits(ReadInt(b).value.0).value in r.value.0
    decreases n
  {
    if n <= 0 then Success(({}, b))
    else
      var (bits, b1) :- ReadInt(b);
      match FlagOfBits(bits)
      case None => Failure(NullPointer)
      case Some(f) =>
        var (rest, b2) :- ReadFlags(b1, n - 1);
        Success(({f} + rest, b2))
  }

  /** One record as `load` reads it: pattern, flag count, flags; the
      expression gets no id and the context the callback makes from its
      pattern and flags. */
  function ReadExpression(b: seq<Byte>, contextCreator: (JString, set<ExpressionFlag>) -> Option<ContextObj>)
    : (r: Result<(Expression, seq<Byte>), Error>)
    ensures r.Failure? ==> r.error in {EndOfFile, UtfDataFormat, NullPointer}
    ensures r.Success? ==> |r.value.1| < |b| && r.value.0.id.None?
    ensures r.Success? ==> r.value.0.context == contextCreator(r.value.0.pattern, r.value.0.flags)
  {
    var (pattern, b1) :- ReadUtf(b);
    var (flagCount, b2) :- ReadInt(b1);
    var (flags, b3) :- ReadFlags(b2, flagCount);
    Success((Expression(pattern, flags, None, contextCreator(pattern, flags)), b3))
  }

  /** `n` records one after another. */
  function ReadExpressions(b: seq<Byte>, n: nat, contextCreator: (JString, set<ExpressionFlag>) -> Option<ContextObj>)
    : (r: Result<(seq<Expression>, seq<Byte>), Error>)
    ensures r.Failure? ==> r.error in {EndOfFile, UtfDataFormat, NullPointer}
    ensures r.Success? ==> |r.value.0| == n && |r.value.1| <= |b|
    ensures r.Success? ==> forall e :: e in r.value.0 ==> e.id.None?
    decreases n
  {
    if n == 0 then Success(([], b))
    else
      var (e, b1) :- ReadExpression(b, contextCreator);
      var (rest, b2) :- ReadExpressions(b1, n - 1, contextCreator);
      Success(([e] + rest, b2))
  }

  /** The expression part of `load`: a count (negative is refused by the
      list constructor), then that many records. */
  function LoadExpressions(b: seq<Byte>, contextCreator: (JString, set<ExpressionFlag>) -> Option<ContextObj>)
    : (r: Result<(seq<Expression>, seq<Byte>), Error>)
    ensures r.Failure? ==> r.error in {EndOfFile, UtfDataFormat, NullPointer, IllegalArgument}
    ensures r.Success? ==> forall e :: e in r.value.0 ==> e.id.None?
  {
    var (count, b1) :- ReadInt(b);
    if count < 0 then Failure(IllegalArgument)
    else ReadExpressions(b1, count, contextCreator)
  }

  /** The database part of `load`: a length (negative is refused by the
      array constructor), exactly that many bytes, then the engine's
      deserialization. */
  function LoadDatabase(b: seq<Byte>, deserialize: seq<Byte> -> DeserializeReply): (r: Result<(NativeDb, seq<Byte>), Error>)
    ensures r.Success? ==> |b| >= 4 && ReadInt(b).Success? && ReadInt(b).value.0 >= 0
    ensures ReadInt(b).Failure? ==> r == Failure(EndOfFile)
    ensures ReadInt(b).Success? && ReadInt(b).value.0 < 0 ==> r == Failure(NegativeArraySize)
    ensures ReadInt(b).Success? && |ReadInt(b).value.1| < ReadInt(b).value.0 ==> r == Failure(EndOfFile)
    ensures ReadInt(b).Success? && 0 <= ReadInt(b).value.0 <= |ReadInt(b).value.1| ==>
      var (len, rest) := ReadInt(b).value;
      var reply := deserialize(rest[..len]);
      (r.Success? <==> reply.status == HS_SUCCESS) &&
      (r.Failure? ==> r.error == U.HsErrorIntToException(reply.status)) &&
      (r.Success? ==> r.value == (reply.db, rest[len..]))
  {
    var (length, b1) :- ReadInt(b);
    if length < 0 then Failure(NegativeArraySize)
    else if |b1| < length then Failure(EndOfFile)
    else
      var reply := deserialize(b1[..length]);
      if reply.status != HS_SUCCESS then Failure(U.HsErrorIntToException(reply.status))
      else Success((reply.db, b1[length..]))
  }

  /** load(expressionsIn, databaseIn, contextCreator), with the bytes each
      stream has left afterwards. */
  datatype Loaded = Loaded(db: Database, expressionsRest: seq<Byte>, databaseRest: seq<Byte>)

  function Load(expressionsIn: seq<Byte>, databaseIn: seq<Byte>, deserialize: seq<Byte> -> DeserializeReply,
                contextCreator: (JString, set<ExpressionFlag>) -> Option<ContextObj>): (r: Result<Loaded, Error>)
    ensures r.Success? ==> r.value.db.handle.Some?
    ensures r.Success? ==> forall e :: e in r.value.db.expressions ==> e.id.None?
  {
    var (expressions, rest1) :- LoadExpressions(expressionsIn, contextCreator);
    var (handle, rest2) :- LoadDatabase(databaseIn, deserialize);
    Success(Loaded(Database(Some(handle), expressions), rest1, rest2))
  }

  /** load(in): both parts from the same stream; the database part starts
      where the expressions end. */
  function LoadFromOne(input: seq<Byte>, deserialize: seq<Byte> -> DeserializeReply,
                       contextCreator: (JString, set<ExpressionFlag>) -> Option<ContextObj>): (r: Result<(Database, seq<Byte>), Error>)
    ensures r.Success? ==> r.value.0.handle.Some?
  {
    var (expressions, rest1) :- LoadExpressions(input, contextCreator);
    var (handle, rest2) :- LoadDatabase(rest1, deserialize);
    Success((Database(Some(handle), expressions), rest2))
  }

  /** The load callback used when none is given: every context is null. */
  function NoContext(pattern: JString, flags: set<ExpressionFlag>): Option<ContextObj> {
    None
  }

  /** The expression `load` rebuilds from a saved one: pattern and flags
      come back, the id does not, the context is the callback's. */
  function Reloaded(e: Expression, contextCreator: (JString, set<ExpressionFlag>) -> Option<ContextObj>): Expression {
    Expression(e.pattern, e.flags, None, contextCreator(e.pattern, e.flags))
  }

  // ----- the save/load round trip -----

  /** One flag word read in front of the others. */
  lemma ReadFlagsStep(b: seq<Byte>, n: int, f: ExpressionFlag, b1: seq<Byte>, tail: set<ExpressionFlag>, b2: seq<Byte>)
    requires n > 0 && ReadInt(b) == Success((FlagWord(f), b1))
    requires ReadFlags(b1, n - 1) == Success((tail, b2))
    ensures ReadFlags(b, n) == Success(({f} + tail, b2))
  {
    FlagOfBitsOfFlag(f);
    var bits := ReadInt(b).value.0;
    assert FlagOfBits(bits) == Some(f);
  }

  lemma {:induction false} FlagWordsRoundTrip(flags: seq<ExpressionFlag>, rest: seq<Byte>)
    ensures ReadFlags(FlagWords(flags) + rest, |flags|) == Success(((set f | f in flags), rest))
  {
    if flags != [] {
      var tailBytes := FlagWords(flags[1..]) + rest;
      assert FlagWords(flags) + rest == WriteInt(FlagWord(flags[0])) + tailBytes;
      IntRoundTrip(FlagWord(flags[0]), tailBytes);
      FlagWordsRoundTrip(flags[1..], rest);
      ReadFlagsStep(FlagWords(flags) + rest, |flags|, flags[0], tailBytes, (set f | f in flags[1..]), rest);
      assert (set f | f in flags) == {flags[0]} + (set f | f in flags[1..]);
    } else {
      assert FlagWords(flags) + rest == rest;
      assert (set f | f in flags) == {};
    }
  }

  lemma FlagOfBitsOfFlag(f: ExpressionFlag)
    ensures FlagOfBits(FlagWord(f)) == Some(f)
  {
    match f
    case NoFlag =>
    case Caseless =>
    case DotAll =>
    case Multiline =>
    case SingleMatch =>
    case AllowEmpty =>
    case Utf8 =>
    case Ucp =>
    case Prefilter =>
    case SomLeftmost =>
    case Combination =>
    case Quiet =>
  }

  /** A record is read as its three parts in order. */
  lemma ReadExpressionStep(b: seq<Byte>, contextCreator: (JString, set<ExpressionFlag>) -> Option<ContextObj>,
                           pattern: JString, b1: seq<Byte>, n: Int32, b2: seq<Byte>, flags: set<ExpressionFlag>, b3: seq<Byte>)
    requires ReadUtf(b) == Success((pattern, b1))
    requires ReadInt(b1) == Success((n, b2))
    requires ReadFlags(b2, n) == Success((flags, b3))
    ensures ReadExpression(b, contextCreator) == Success((Expression(pattern, flags, None, contextCreator(pattern, flags)), b3))
  {
  }

  /** A record followed by more bytes, split at its parts. */
  lemma RecordLayout(e: Expression, rest: seq<Byte>)
    requires WriteUtf(e.pattern).Success?
    ensures ExpressionRecord(e).Success?
    ensures ExpressionRecord(e).value + rest ==
      WriteUtf(e.pattern).value + (WriteInt(|FlagsInOrder(e.flags)|) + (FlagWords(FlagsInOrder(e.flags)) + rest))
  {
  }

  lemma RecordRoundTrip(e: Expression, rest: seq<Byte>, contextCreator: (JString, set<ExpressionFlag>) -> Option<ContextObj>)
    requires WriteUtf(e.pattern).Success?
    ensures ExpressionRecord(e).Success?
    ensures ReadExpression(ExpressionRecord(e).value + rest, contextCreator) == Success((Reloaded(e, contextCreator), rest))
  {
    var p := WriteUtf(e.pattern).value;
    var flags := FlagsInOrder(e.flags);
    var b2 := FlagWords(flags) + rest;
    var b1 := WriteInt(|flags|) + b2;
    assert ReadUtf(p + b1) == Success((e.pattern, b1)) by {
      UtfRoundTrip(e.pattern, b1);
    }
    assert ReadInt(b1) == Success((|flags|, b2)) by {
      IntRoundTrip(|flags|, b2);
    }
    assert ReadFlags(b2, |flags|) == Success((e.flags, rest)) by {
      FlagWordsRoundTrip(flags, rest);
      assert (set f | f in flags) == e.flags;
    }
    ReadExpressionStep(p + b1, contextCreator, e.pattern, b1, |flags|, b2, e.flags, rest);
    RecordLayout(e, rest);
  }

  /** A list of records is read as its first record, then the others. */
  lemma ReadExpressionsStep(b: seq<Byte>, n: nat, contextCreator: (JString, set<ExpressionFlag>) -> Option<ContextObj>,
                            e: Expression, b1: seq<Byte>, tail: seq<Expression>, b2: seq<Byte>)
    requires n > 0 && ReadExpression(b, contextCreator) == Success((e, b1))
    requires ReadExpressions(b1, n - 1, contextCreator) == Success((tail, b2))
    ensures ReadExpressions(b, n, contextCreator) == Success(([e] + tail, b2))
  {
  }

  /** The records of a list are its first record, then the others'. */
  lemma RecordsLayout(xs: seq<Expression>)
    requires xs != [] && WriteUtf(xs[0].pattern).Success?
    ensures ExpressionRecords(xs).0 == ExpressionRecord(xs[0]).value + ExpressionRecords(xs[1..]).0
  {
  }

  lemma {:induction false} RecordsRoundTrip(xs: seq<Expression>, rest: seq<Byte>,
                                            contextCreator: (JString, set<ExpressionFlag>) -> Option<ContextObj>)
    requires forall e :: e in xs ==> WriteUtf(e.pattern).Success?
    ensures ReadExpressions(ExpressionRecords(xs).0 + rest, |xs|, contextCreator) ==
      Success((ReloadedAll(xs, contextCreator), rest))
  {
    if xs == [] {
      assert ExpressionRecords(xs).0 + rest == rest;
    } else {
      assert WriteUtf(xs[0].pattern).Success?;
      var record := ExpressionRecord(xs[0]).value;
      var others := ExpressionRecords(xs[1..]).0;
      var tail := others + rest;
      RecordsRoundTrip(xs[1..], rest, contextCreator);
      assert ReadExpression(record + tail, contextCreator) == Success((Reloaded(xs[0], contextCreator), tail)) by {
        RecordRoundTrip(xs[0], tail, contextCreator);
      }
      assert ExpressionRecords(xs).0 + rest == record + tail by {
        RecordsLayout(xs);
        ConcatAssociative(record, others, rest);
      }
      ReadExpressionsStep(record + tail, |xs|, contextCreator, Reloaded(xs[0], contextCreator), tail,
                          ReloadedAll(xs[1..], contextCreator), rest);
    }
  }

  function ReloadedAll(xs: seq<Expression>, contextCreator: (JString, set<ExpressionFlag>) -> Option<ContextObj>)
    : (r: seq<Expression>)
    ensures |r| == |xs| && forall i :: 0 <= i < |xs| ==> r[i] == Reloaded(xs[i], contextCreator)
  {
    if xs == [] then [] else [Reloaded(xs[0], contextCreator)] + ReloadedAll(xs[1..], contextCreator)
  }

  /** The bytes `save(out)` writes when nothing fails, split at their parts. */
  lemma SaveLayout(db: Database, serialize: Option<NativeDb> -> SerializeReply, rest: seq<Byte>)
    requires |db.expressions| <= INT32_MAX
    requires forall e :: e in db.expressions ==> WriteUtf(e.pattern).Success?
    requires serialize(db.handle).status == HS_SUCCESS
    ensures Save(db, serialize).error.None?
    ensures SaveToOne(db, serialize).Success?
    ensures SaveToOne(db, serialize).value + rest ==
      WriteInt(|db.expressions|) + (ExpressionRecords(db.expressions).0 +
        (WriteInt(|serialize(db.handle).blob|) + (serialize(db.handle).blob + rest)))
  {
    RecordsFail(db.expressions);
    var count := WriteInt(|db.expressions|);
    var records := ExpressionRecords(db.expressions).0;
    var blob := serialize(db.handle).blob;
    var saved := Save(db, serialize);
    assert saved.expressionsOut == count + records;
    assert saved.databaseOut == WriteInt(|blob|) + blob;
    var len := WriteInt(|blob|);
    ConcatAssociative(count + records, len + blob, rest);
    ConcatAssociative(count, records, (len + blob) + rest);
    ConcatAssociative(len, blob, rest);
  }

  /** A length-prefixed blob the engine accepts loads as the engine's database. */
  lemma LoadDatabaseOfBlob(blob: Blob, rest: seq<Byte>, deserialize: seq<Byte> -> DeserializeReply)
    requires deserialize(blob).status == HS_SUCCESS
    ensures LoadDatabase(WriteInt(|blob|) + (blob + rest), deserialize) == Success((deserialize(blob).db, rest))
  {
    IntRoundTrip(|blob|, blob + rest);
    assert (blob + rest)[..|blob|] == blob && (blob + rest)[|blob|..] == rest;
  }

  /** The count and records of `save` load as the reloaded expressions. */
  lemma LoadExpressionsOfRecords(xs: seq<Expression>, rest: seq<Byte>,
                                 contextCreator: (JString, set<ExpressionFlag>) -> Option<ContextObj>)
    requires |xs| <= INT32_MAX
    requires forall e :: e in xs ==> WriteUtf(e.pattern).Success?
    ensures LoadExpressions(WriteInt(|xs|) + (ExpressionRecords(xs).0 + rest), contextCreator) ==
      Success((ReloadedAll(xs, contextCreator), rest))
  {
    IntRoundTrip(|xs|, ExpressionRecords(xs).0 + rest);
    RecordsRoundTrip(xs, rest, contextCreator);
  }

  /** Loading what `save(out)` wrote gives back every expression's pattern
      and flags, in order, with the context the callback makes, and the
      database the engine rebuilds from the serialized bytes; whatever
      followed on the stream is left unread. */
  lemma SaveLoadRoundTrip(db: Database, serialize: Option<NativeDb> -> SerializeReply,
                          deserialize: seq<Byte> -> DeserializeReply,
                          contextCreator: (JString, set<ExpressionFlag>) -> Option<ContextObj>, rest: seq<Byte>)
    requires |db.expressions| <= INT32_MAX
    requires forall e :: e in db.expressions ==> WriteUtf(e.pattern).Success?
    requires serialize(db.handle).status == HS_SUCCESS
    requires deserialize(serialize(db.handle).blob).status == HS_SUCCESS
    ensures Save(db, serialize).error.None?
    ensures SaveToOne(db, serialize).Success?
    ensures LoadFromOne(SaveToOne(db, serialize).value + rest, deserialize, contextCreator) ==
      Success((Database(Some(deserialize(serialize(db.handle).blob).db), ReloadedAll(db.expressions, contextCreator)), rest))
  {
    var xs := db.expressions;
    var blob := serialize(db.handle).blob;
    var dbPart := WriteInt(|blob|) + (blob + rest);
    SaveLayout(db, serialize, rest);
    LoadExpressionsOfRecords(xs, dbPart, contextCreator);
    LoadDatabaseOfBlob(blob, rest, deserialize);
  }
}
