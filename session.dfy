/**
 * The interpreter's mutable state: the one current equation, the console
 * log and the number of renders requested, with the entry points that
 * change them.
 */
module Interpreter {
  import opened Wrappers
  import opened Normalizer
  import opened Commands
  import opened Engine

  /** The equation the application starts with. */
  const INITIAL_EQUATION := "x**2 == 4"

  /** A console line as `update_console` writes it (one element per line). */
  function ConsoleLine(txt: string): (line: string)
    ensures |line| == |txt| + 2 && line[..2] == "> " && line[2..] == txt
  {
    "> " + txt
  }

  /** The equation after a step: the new one on success, the old one kept on failure. */
  function Commit<E>(e: E, r: Result<E, string>): E {
    if r.Success? then r.value else e
  }

  /** The console lines a step adds: its error message, or nothing on success. */
  function Echo<E>(r: Result<E, string>): seq<string> {
    if r.Success? then [] else [ConsoleLine(r.error)]
  }

  class Session<E> {
    const algebra: Algebra<E>
    var expression: E
    var console: seq<string>
    var renders: nat

    /** Start-up: parse the initial equation and render it once. */
    constructor (algebra: Algebra<E>)
      requires algebra.parse(INITIAL_EQUATION).Some?
      ensures this.algebra == algebra
      ensures expression == algebra.parse(INITIAL_EQUATION).value
      ensures console == [] && renders == 1
    {
      this.algebra := algebra;
      expression := algebra.parse(INITIAL_EQUATION).value;
      console := [];
      renders := 1;
    }

    /** Append one line to the console log. */
    method UpdateConsole(txt: string)
      modifies this`console
      ensures console == old(console) + [ConsoleLine(txt)]
    {
      console := console + [ConsoleLine(txt)];
    }

    /**
     * The shared `try` block of the four factor branches: on success the
     * equation is replaced, otherwise it is kept and "Invalid factor!" logged.
     */
    method DivideSides(arg: string, side: Side)
      modifies this`expression, this`console
      ensures var r := Apply(algebra, old(expression), Divide(arg), side);
        expression == Commit(old(expression), r) && console == old(console) + Echo(r)
    {
      var fac := algebra.parse(arg);
      var next := if fac.Some? then Combine(algebra, expression, fac.value, side) else None;
      if next.Some? {
        expression := next.value;
      } else {
        UpdateConsole(INVALID_FACTOR);
      }
    }

    /**
     * Run one command. `conversions` is the table read from the conversion
     * file, None when reading it fails: then the exception leaves the
     * command before anything has changed. Otherwise the equation is
     * replaced on success and kept on failure, a failure logs exactly one
     * line, and the display is rendered once either way.
     */
    method ProcessCommand(cmd: string, conversions: Option<Table>)
      modifies this`expression, this`console, this`renders
      ensures conversions.None? ==>
        expression == old(expression) && console == old(console) && renders == old(renders)
      ensures conversions.Some? ==>
        var r := Interpret(algebra, old(expression), ConvertAll(cmd, conversions.value));
        && expression == Commit(old(expression), r)
        && console == old(console) + Echo(r)
        && renders == old(renders) + 1
    {
      if conversions.None? {
        return;
      }
      var text := Convert(cmd, conversions.value);
      var (rest, side) := ExtractSide(text);
      ghost var r := Apply(algebra, expression, ParseVerb(rest), side);
      assert r == Interpret(algebra, expression, text);
      match ParseVerb(rest) {
        case Set(arg) =>
          var parsed := algebra.parse(arg);
          if parsed.Some? {
            expression := parsed.value;
          } else {
            UpdateConsole(INVALID_EXPRESSION);
          }
        case Simplify =>
          expression := algebra.simplify(expression);
        case Divide(arg) =>
          assert r == Apply(algebra, expression, Divide(arg), side);
          DivideSides(arg, side);
        case Multiply(arg) =>
          assert r == Apply(algebra, expression, Divide(arg), side);
          DivideSides(arg, side);
        case Add(arg) =>
          assert r == Apply(algebra, expression, Divide(arg), side);
          DivideSides(arg, side);
        case Subtract(arg) =>
          assert r == Apply(algebra, expression, Divide(arg), side);
          DivideSides(arg, side);
        case Unrecognized =>
          UpdateConsole(UNRECOGNIZED_COMMAND);
      }
      renders := renders + 1;
    }

    /** The entry's Return handler: echo the raw input, then run it as a command. */
    method OnEnter(input: string, conversions: Option<Table>)
      modifies this`expression, this`console, this`renders
      ensures conversions.None? ==>
        expression == old(expression) && console == old(console) + [ConsoleLine(input)] && renders == old(renders)
      ensures conversions.Some? ==>
        var r := Interpret(algebra, old(expression), ConvertAll(input, conversions.value));
        && expression == Commit(old(expression), r)
        && console == old(console) + [ConsoleLine(input)] + Echo(r)
        && renders == old(renders) + 1
    {
      UpdateConsole(input);
      ProcessCommand(input, conversions);
    }
  }
}
