/**
 * The state transition of `process_command` on the current equation,
 * as a pure function of the old equation and the recognised command.
 */
module Engine {
  import opened Wrappers
  import opened PyStrings
  import opened Commands

  /**
   * The symbolic-math collaborator (SymPy), seen only through the calls the
   * interpreter makes. Nothing is assumed about what these calls compute;
   * None stands for a call that raises.
   */
  datatype Algebra<!E> = Algebra(
    parse: string -> Option<E>,     // parse_expr(text, evaluate=False)
    simplify: E -> E,               // sp.simplify(e)
    div: (E, E) -> Option<E>,       // a / b
    mkEq: (E, E) -> Option<E>,      // sp.Eq(a, b)
    lhs: E -> Option<E>,            // e.lhs
    rhs: E -> Option<E>)            // e.rhs

  const INVALID_EXPRESSION := "Invalid expression!"
  const INVALID_FACTOR := "Invalid factor!"
  const UNRECOGNIZED_COMMAND := "Unrecognized command!"

  /**
   * The body of a factor branch's `try`: take both sides of the equation,
   * divide the selected one(s) by the factor and build a new equation.
   * None when any of these calls raises.
   */
  function Combine<E>(alg: Algebra<E>, e: E, fac: E, side: Side): (r: Option<E>)
    ensures r.Some? ==> alg.lhs(e).Some? && alg.rhs(e).Some?
    ensures side == Left && alg.lhs(e).Some? && alg.rhs(e).Some? ==>
      r == if alg.div(alg.lhs(e).value, fac).None? then None
           else alg.mkEq(alg.div(alg.lhs(e).value, fac).value, alg.rhs(e).value)
    ensures side == Right && alg.lhs(e).Some? && alg.rhs(e).Some? ==>
      r == if alg.div(alg.rhs(e).value, fac).None? then None
           else alg.mkEq(alg.lhs(e).value, alg.div(alg.rhs(e).value, fac).value)
    ensures side == Both && alg.lhs(e).Some? && alg.rhs(e).Some? ==>
      r == if alg.div(alg.lhs(e).value, fac).None? || alg.div(alg.rhs(e).value, fac).None? then None
           else alg.mkEq(alg.div(alg.lhs(e).value, fac).value, alg.div(alg.rhs(e).value, fac).value)
  {
    var l := alg.lhs(e);
    var r := alg.rhs(e);
    if l.None? || r.None? then None
    else
      var l' := if side == Right then l else alg.div(l.value, fac);
      var r' := if side == Left then r else alg.div(r.value, fac);
      if l'.None? || r'.None? then None else alg.mkEq(l'.value, r'.value)
  }

  /**
   * One command applied to the current equation: the new equation, or the
   * message that `process_command` echoes while keeping the old one.
   * Multiply, add and subtract divide, exactly as divide does.
   */
  function Apply<E>(alg: Algebra<E>, e: E, c: Command, side: Side): (r: Result<E, string>)
    ensures c.Simplify? ==> r.Success?
    ensures c.Set? ==> (r.Success? <==> alg.parse(c.expr).Some?)
    ensures c.IsFactorVerb() ==> (r.Success? <==> alg.parse(c.factor).Some? && Combine(alg, e, alg.parse(c.factor).value, side).Some?)
    ensures r.Failure? ==> r.error == (if c.Set? then INVALID_EXPRESSION else if c.Unrecognized? then UNRECOGNIZED_COMMAND else INVALID_FACTOR)
    ensures c.Set? && r.Success? ==> r.value == alg.parse(c.expr).value
    ensures c.Simplify? ==> r == Success(alg.simplify(e))
    ensures c.Unrecognized? ==> r == Failure(UNRECOGNIZED_COMMAND)
    ensures c.IsFactorVerb() && r.Success? ==>
      alg.parse(c.factor).Some? && alg.lhs(e).Some? && alg.rhs(e).Some?
    ensures c.IsFactorVerb() && r.Success? && side == Left ==>
      var f := alg.parse(c.factor).value;
      alg.div(alg.lhs(e).value, f).Some? &&
      alg.mkEq(alg.div(alg.lhs(e).value, f).value, alg.rhs(e).value) == Some(r.value)
    ensures c.IsFactorVerb() && r.Success? && side == Right ==>
      var f := alg.parse(c.factor).value;
      alg.div(alg.rhs(e).value, f).Some? &&
      alg.mkEq(alg.lhs(e).value, alg.div(alg.rhs(e).value, f).value) == Some(r.value)
    ensures c.IsFactorVerb() && r.Success? && side == Both ==>
      var f := alg.parse(c.factor).value;
      alg.div(alg.lhs(e).value, f).Some? && alg.div(alg.rhs(e).value, f).Some? &&
      alg.mkEq(alg.div(alg.lhs(e).value, f).value, alg.div(alg.rhs(e).value, f).value) == Some(r.value)
  {
    match c
    case Set(text) =>
      (match alg.parse(text)
       case Some(v) => Success(v)
       case None => Failure(INVALID_EXPRESSION))
    case Simplify => Success(alg.simplify(e))
    case Unrecognized => Failure(UNRECOGNIZED_COMMAND)
    case _ =>
      match alg.parse(c.factor)
      case None => Failure(INVALID_FACTOR)
      case Some(f) =>
        match Combine(alg, e, f, side)
        case Some(v) => Success(v)
        case None => Failure(INVALID_FACTOR)
  }

  /** A converted command line, from its side modifier to its effect on the equation. */
  function Interpret<E>(alg: Algebra<E>, e: E, cmd: string): (r: Result<E, string>)
    ensures r.Failure? ==> r.error in {INVALID_EXPRESSION, INVALID_FACTOR, UNRECOGNIZED_COMMAND}
    ensures var rest := ExtractSide(cmd).0;
      r == Failure(UNRECOGNIZED_COMMAND) <==>
        !StartsWith(rest, "set") && !StartsWith(rest, "simplify") && !StartsWith(rest, "divide") &&
        !StartsWith(rest, "multiply") && !StartsWith(rest, "add") && !StartsWith(rest, "subtract")
    ensures StartsWith(ExtractSide(cmd).0, "simplify") ==> r == Success(alg.simplify(e))
  {
    var (rest, side) := ExtractSide(cmd);
    Apply(alg, e, ParseVerb(rest), side)
  }

  predicate NoSideSuffix(s: string) {
    !EndsWith(s, "left") && !EndsWith(s, "right")
  }

  /** A command spelt out with a side modifier is interpreted as that command on that side. */
  lemma InterpretCanonical<E>(alg: Algebra<E>, e: E, c: Command, side: Side)
    requires side == Both ==> NoSideSuffix(CommandText(c))
    ensures Interpret(alg, e, CommandText(c) + SideText(side)) == Apply(alg, e, c, side)
  {
    SideRoundTrip(CommandText(c), side);
    ParseVerbRoundTrip(c);
  }

  /**
   * `set E;` replaces the equation by the parse of E, whatever side modifier
   * follows, and reports "Invalid expression!" when E does not parse.
   */
  lemma SetCommand<E>(alg: Algebra<E>, e: E, text: string, side: Side)
    ensures Interpret(alg, e, "set " + text + ";" + SideText(side)) ==
      if alg.parse(text).Some? then Success(alg.parse(text).value) else Failure(INVALID_EXPRESSION)
  {
    var t := CommandText(Set(text));
    assert t[|t| - 1] == ';';
    assert NoSideSuffix(t);
    InterpretCanonical(alg, e, Set(text), side);
  }

  /** `simplify` ignores the side modifier and never fails. */
  lemma SimplifyCommand<E>(alg: Algebra<E>, e: E, side: Side)
    ensures Interpret(alg, e, "simplify" + SideText(side)) == Success(alg.simplify(e))
  {
    InterpretCanonical(alg, e, Simplify, side);
  }

  /**
   * Every factor verb, spelt out with any side modifier, does what
   * `divide by` does with the same factor on the same side.
   */
  lemma FactorCommandDivides<E>(alg: Algebra<E>, e: E, c: Command, side: Side)
    requires c.IsFactorVerb()
    requires side == Both ==> NoSideSuffix(CommandText(c)) && NoSideSuffix(CommandText(Divide(c.factor)))
    ensures Interpret(alg, e, CommandText(c) + SideText(side)) ==
      Interpret(alg, e, "divide by " + c.factor + SideText(side))
  {
    InterpretCanonical(alg, e, c, side);
    InterpretCanonical(alg, e, Divide(c.factor), side);
  }

  /** A line that starts with no verb changes nothing and reports "Unrecognized command!". */
  lemma BogusCommand<E>(alg: Algebra<E>, e: E)
    ensures Interpret(alg, e, "bogus command") == Failure(UNRECOGNIZED_COMMAND)
  {
    var t := "bogus command";
    assert t[|t| - 1] == 'd';
    assert NoSideSuffix(t);
    assert ExtractSide(t) == (t, Both);
    assert t[0] == 'b';
    assert !StartsWith(t, "set") && !StartsWith(t, "simplify") && !StartsWith(t, "subtract");
    assert !StartsWith(t, "divide") && !StartsWith(t, "multiply") && !StartsWith(t, "add");
    assert ParseVerb(t) == Unrecognized;
  }

  /**
   * What the interpreter assumes of `sp.Eq` when it reads a side back: an
   * equation that still has sides has the ones it was built from (it may
   * instead collapse to a truth value, which has no sides).
   */
  ghost predicate EqualityKeepsSides<E(!new)>(alg: Algebra<E>) {
    forall a: E, b: E ::
      alg.mkEq(a, b).Some? && alg.lhs(alg.mkEq(a, b).value).Some? ==>
        alg.lhs(alg.mkEq(a, b).value) == Some(a) && alg.rhs(alg.mkEq(a, b).value) == Some(b)
  }

  /**
   * Which side receives the division: on the left only the left side is
   * divided and the right one is kept, on the right the other way round,
   * and with no modifier both are divided.
   */
  lemma DivisionTargetsSide<E(!new)>(alg: Algebra<E>, e: E, c: Command, side: Side, e': E)
    requires EqualityKeepsSides(alg)
    requires c.IsFactorVerb()
    requires Apply(alg, e, c, side) == Success(e')
    requires alg.lhs(e').Some?
    ensures alg.parse(c.factor).Some? && alg.lhs(e).Some? && alg.rhs(e).Some?
    ensures alg.lhs(e') == if side == Right then alg.lhs(e) else alg.div(alg.lhs(e).value, alg.parse(c.factor).value)
    ensures alg.rhs(e') == if side == Left then alg.rhs(e) else alg.div(alg.rhs(e).value, alg.parse(c.factor).value)
  {
    var f := alg.parse(c.factor).value;
    var l, r := alg.lhs(e).value, alg.rhs(e).value;
    var l' := if side == Right then l else alg.div(l, f).value;
    var r' := if side == Left then r else alg.div(r, f).value;
    assert alg.mkEq(l', r') == Some(e');
  }

  /**
   * Dividing the left side by a factor and then the right side by the same
   * factor gives the equation that dividing both sides at once gives.
   */
  lemma LeftThenRight<E(!new)>(alg: Algebra<E>, e: E, a: string, e1: E)
    requires EqualityKeepsSides(alg)
    requires Apply(alg, e, Divide(a), Left) == Success(e1)
    requires alg.lhs(e1).Some?
    ensures Apply(alg, e1, Divide(a), Right) == Apply(alg, e, Divide(a), Both)
  {
    DivisionTargetsSide(alg, e, Divide(a), Left, e1);
  }

  /** "divide by 2 on left" divides the left side by 2 and keeps the right one. */
  lemma DivideByTwoOnLeft<E>(alg: Algebra<E>, e: E)
    ensures Interpret(alg, e, "divide by 2 on left") == Apply(alg, e, Divide("2"), Left)
  {
    assert CommandText(Divide("2")) + SideText(Left) == "divide by 2 on left";
    InterpretCanonical(alg, e, Divide("2"), Left);
  }

  /** "divide by 2" divides both sides by 2. */
  lemma DivideByTwo<E>(alg: Algebra<E>, e: E)
    ensures Interpret(alg, e, "divide by 2") == Apply(alg, e, Divide("2"), Both)
  {
    var t := CommandText(Divide("2"));
    assert t + SideText(Both) == "divide by 2";
    assert t[|t| - 1] == '2';
    InterpretCanonical(alg, e, Divide("2"), Both);
  }
}
