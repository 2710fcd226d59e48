/** The native matching engine, seen from the wrapper: opaque handles and
    the replies of the calls the wrapper makes. Which reply a call gives is
    not modelled; every operation that calls the engine takes the call as a
    function parameter. */
module Engine {
  import opened Expressions

  /** A compiled database living in native memory. */
  datatype NativeDb = NativeDb(token: nat)

  /** Native scratch space. */
  datatype Scratch = Scratch(token: nat)

  const HS_SUCCESS: int := 0
  const HS_COMPILE_ERROR: int := -4

  /** The compile mode the wrapper always asks for (`HS_MODE_BLOCK`). */
  const HS_MODE_BLOCK: int := 1

  /** A compile request: the patterns with their flag words and ids, in order. */
  datatype CompileRequest = CompileRequest(patterns: seq<JString>, flags: seq<bv32>, ids: seq<int>, mode: int)

  /** The status of a compile call; on a compile error, the index of the
      offending expression and the engine's message. */
  datatype CompileReply = CompileReply(status: int, db: NativeDb, errorExpression: int, errorMessage: JString)

  /** The status of a scratch allocation and the scratch it leaves behind. */
  datatype AllocReply = AllocReply(status: int, scratch: Scratch)

  /** A byte block a Java array can hold. */
  type Blob = b: seq<Byte> | |b| <= INT32_MAX

  datatype SerializeReply = SerializeReply(status: int, blob: Blob)

  datatype DeserializeReply = DeserializeReply(status: int, db: NativeDb)

  /** A byte offset into a scanned buffer. The buffer is a Java array, so
      every offset the engine reports fits in an `int` and the wrapper's
      `(int)` casts of them change nothing. */
  type Offset = x: int | 0 <= x <= INT32_MAX

  /** One match reported to the scan callback: the expression id and the
      byte offsets `[from, to)`. */
  datatype MatchTuple = MatchTuple(id: Int32, from: Offset, to: Offset)

  /** A scan call's status and the matches it reported, in callback order. */
  datatype ScanReply = ScanReply(status: int, reported: seq<MatchTuple>)
}
