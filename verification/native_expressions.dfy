/** The arrays handed to the engine for a list of expressions: pattern
    texts, flag words and ids. Either every expression brings its own id or
    none does; without ids, an expression's position is its id. */
module NativeExpressions {
  import opened Wrappers
  import opened Expressions
  import opened Errors
  import U = Util
  import D = Databases
  import Engine

  datatype NativeArrays = NativeArrays(patterns: seq<JString>, flags: seq<bv32>, ids: seq<int>, size: nat)

  predicate SomeWithId(xs: seq<Expression>) {
    exists i | 0 <= i < |xs| :: xs[i].id.Some?
  }

  predicate SomeWithoutId(xs: seq<Expression>) {
    exists i | 0 <= i < |xs| :: xs[i].id.None?
  }

  /** The collection's constructor: a list mixing expressions with and
      without ids is refused; otherwise one entry per expression, in list
      order, with the expression's own id if they all have one and its
      position if none has. */
  function Collect(xs: seq<Expression>): (r: Result<NativeArrays, Error>)
    ensures r.Failure? <==> SomeWithId(xs) && SomeWithoutId(xs)
    ensures r.Failure? ==> r.error == IllegalState
    ensures r.Success? ==> r.value.size == |xs| == |r.value.patterns| == |r.value.flags| == |r.value.ids|
    ensures r.Success? ==> forall i :: 0 <= i < |xs| ==>
      r.value.patterns[i] == xs[i].pattern && r.value.flags[i] == U.FlagSetBits(xs[i].flags)
    ensures r.Success? ==> forall i :: 0 <= i < |xs| ==>
      r.value.ids[i] == (if xs[i].id.Some? then xs[i].id.value else i)
  {
    var withId := SomeWithId(xs);
    if withId && SomeWithoutId(xs) then Failure(IllegalState)
    else
      Success(NativeArrays(
        seq(|xs|, i requires 0 <= i < |xs| => xs[i].pattern),
        seq(|xs|, i requires 0 <= i < |xs| => U.FlagSetBits(xs[i].flags)),
        seq(|xs|, i requires 0 <= i < |xs| => if withId then xs[i].id.value else i),
        |xs|))
  }

  /** Positional ids are distinct, and each one finds its own expression
      again in the database compiled from the list. */
  lemma PositionalIdsResolve(xs: seq<Expression>, handle: Option<Engine.NativeDb>)
    requires !SomeWithId(xs)
    ensures Collect(xs).Success?
    ensures forall i, j :: 0 <= i < j < |xs| ==> Collect(xs).value.ids[i] != Collect(xs).value.ids[j]
    ensures forall i :: 0 <= i < |xs| ==> D.GetExpression(D.Database(handle, xs), Collect(xs).value.ids[i]) == Success(xs[i])
  {
    var ids := Collect(xs).value.ids;
    forall i | 0 <= i < |xs|
      ensures ids[i] == i
    {
      assert xs[i].id.None?;
    }
  }

  /** Without ids, the collection hands the engine exactly what compiling
      the list as a database does. */
  lemma AgreesWithDatabaseCompile(xs: seq<Expression>)
    requires !SomeWithId(xs)
    ensures Collect(xs).Success?
    ensures Collect(xs).value.patterns == D.CompileRequestOf(xs).patterns
    ensures Collect(xs).value.flags == D.CompileRequestOf(xs).flags
    ensures Collect(xs).value.ids == D.CompileRequestOf(xs).ids
  {
    var a := Collect(xs).value;
    var q := D.CompileRequestOf(xs);
    forall i | 0 <= i < |xs|
      ensures a.ids[i] == q.ids[i]
    {
      assert xs[i].id.None?;
    }
  }

  /** With ids, the engine gets the list's own ids, in list order. */
  lemma GivenIdsPassThrough(xs: seq<Expression>)
    requires forall i :: 0 <= i < |xs| ==> xs[i].id.Some?
    ensures Collect(xs).Success?
    ensures forall i :: 0 <= i < |xs| ==> Collect(xs).value.ids[i] == xs[i].id.value
  {
    if |xs| > 0 {
      assert xs[0].id.Some?;
    }
  }
}
