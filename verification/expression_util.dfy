/** Turning a `java.util.regex.Pattern` into an engine expression for
    prefiltering: a fixed set of engine flags, plus the engine counterparts
    of three of the pattern's own mode flags. */
module ExpressionUtil {
  import opened Wrappers
  import opened Expressions

  /** A compiled Java pattern: its source text and its `flags()` word. */
  datatype JavaPattern = JavaPattern(regex: JString, flags: bv32)

  /** The `java.util.regex.Pattern` flag constants the mapping looks at. */
  const CASE_INSENSITIVE: bv32 := 0x02
  const MULTILINE: bv32 := 0x08
  const DOTALL: bv32 := 0x20

  /** hasFlag: every bit of `flag` is set in the pattern's flags. */
  predicate HasFlag(p: JavaPattern, flag: bv32) {
    p.flags & flag == flag
  }

  /** The engine flags every prefilter expression carries. */
  const BaseFlags: set<ExpressionFlag> := {Utf8, Prefilter, AllowEmpty, SingleMatch}

  /** The engine flags of a pattern: the fixed ones, plus caseless,
      multi-line and dot-all when the pattern asks for them. */
  function FlagsFor(p: JavaPattern): (flags: set<ExpressionFlag>)
    ensures BaseFlags <= flags <= BaseFlags + {Caseless, Multiline, DotAll}
    ensures Caseless in flags <==> HasFlag(p, CASE_INSENSITIVE)
    ensures Multiline in flags <==> HasFlag(p, MULTILINE)
    ensures DotAll in flags <==> HasFlag(p, DOTALL)
  {
    BaseFlags
      + (if HasFlag(p, CASE_INSENSITIVE) then {Caseless} else {})
      + (if HasFlag(p, MULTILINE) then {Multiline} else {})
      + (if HasFlag(p, DOTALL) then {DotAll} else {})
  }

  /** mapToExpression: the expression for a pattern with the given id, or
      nothing (`null`) when the engine's validation refuses it. Validation
      is the engine's own analysis of pattern text and flags, so it is a
      parameter here. */
  function MapToExpression(p: JavaPattern, id: int, valid: (JString, set<ExpressionFlag>) -> bool)
    : (r: Option<Expression>)
    ensures r.None? <==> !valid(p.regex, FlagsFor(p))
    ensures r.Some? ==> r.value == Expression(p.regex, FlagsFor(p), Some(id), None)
  {
    var expression := Expression(p.regex, FlagsFor(p), Some(id), None);
    if !valid(expression.pattern, expression.flags) then None else Some(expression)
  }

  /** Only the three mode bits matter: patterns with the same text that
      agree on them map to the same expression, whatever else their flags
      say. */
  lemma OnlyModeBitsMatter(p: JavaPattern, q: JavaPattern, id: int, valid: (JString, set<ExpressionFlag>) -> bool)
    requires p.regex == q.regex
    requires p.flags & (CASE_INSENSITIVE | MULTILINE | DOTALL) == q.flags & (CASE_INSENSITIVE | MULTILINE | DOTALL)
    ensures MapToExpression(p, id, valid) == MapToExpression(q, id, valid)
  {
    var mask := CASE_INSENSITIVE | MULTILINE | DOTALL;
    assert p.flags & CASE_INSENSITIVE == (p.flags & mask) & CASE_INSENSITIVE;
    assert q.flags & CASE_INSENSITIVE == (q.flags & mask) & CASE_INSENSITIVE;
    assert p.flags & MULTILINE == (p.flags & mask) & MULTILINE;
    assert q.flags & MULTILINE == (q.flags & mask) & MULTILINE;
    assert p.flags & DOTALL == (p.flags & mask) & DOTALL;
    assert q.flags & DOTALL == (q.flags & mask) & DOTALL;
    assert FlagsFor(p) == FlagsFor(q);
  }

  /** The id is only carried along: mapping with another id changes the
      expression's id and nothing else, and never changes whether the
      pattern is accepted. */
  lemma IdOnlyCarried(p: JavaPattern, i: int, j: int, valid: (JString, set<ExpressionFlag>) -> bool)
    ensures MapToExpression(p, i, valid).Some? <==> MapToExpression(p, j, valid).Some?
    ensures MapToExpression(p, i, valid).Some? ==>
      MapToExpression(p, j, valid) == Some(MapToExpression(p, i, valid).value.(id := Some(j)))
  {
  }
}
