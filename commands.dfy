/**
 * The text-level half of `process_command`: stripping a trailing side
 * modifier, then recognising the verb by its prefix and cutting out its
 * argument at a fixed offset.
 */
module Commands {
  import opened PyStrings

  /** Which side(s) of the equation a factor command acts on; `Both` when no flag is set. */
  datatype Side = Left | Right | Both

  /** The verbs, each with the raw argument text it was given. */
  datatype Command =
    | Set(expr: string)
    | Simplify
    | Divide(factor: string)
    | Multiply(factor: string)
    | Add(factor: string)
    | Subtract(factor: string)
    | Unrecognized
  {
    /** The four verbs that parse a factor and combine it with the equation's sides */
    predicate IsFactorVerb() {
      Divide? || Multiply? || Add? || Subtract?
    }
  }

  /** No command ends both in "left" and in "right". */
  lemma SidesExclusive(cmd: string)
    ensures !(EndsWith(cmd, "left") && EndsWith(cmd, "right"))
  {
    if EndsWith(cmd, "left") && EndsWith(cmd, "right") {
      SuffixesAgree(cmd, "left", "right");
    }
  }

  /** The six verb prefixes exclude one another. */
  lemma VerbsExclusive(cmd: string)
    ensures StartsWith(cmd, "set") ==> !StartsWith(cmd, "simplify") && !StartsWith(cmd, "subtract")
    ensures StartsWith(cmd, "simplify") ==> !StartsWith(cmd, "subtract")
    ensures StartsWith(cmd, "divide by") ==> StartsWith(cmd, "divide")
    ensures StartsWith(cmd, "multiply by") ==> StartsWith(cmd, "multiply")
    ensures StartsWith(cmd, "divide") || StartsWith(cmd, "multiply") || StartsWith(cmd, "add") ==>
      !StartsWith(cmd, "set") && !StartsWith(cmd, "simplify") && !StartsWith(cmd, "subtract")
    ensures StartsWith(cmd, "divide") ==> !StartsWith(cmd, "multiply") && !StartsWith(cmd, "add")
    ensures StartsWith(cmd, "multiply") ==> !StartsWith(cmd, "add")
  {
    if StartsWith(cmd, "divide by") {
      assert cmd[..6] == cmd[..9][..6];
    }
    if StartsWith(cmd, "multiply by") {
      assert cmd[..8] == cmd[..11][..8];
    }
    if |cmd| > 0 {
      assert StartsWith(cmd, "set") || StartsWith(cmd, "simplify") || StartsWith(cmd, "subtract") ==> cmd[0] == 's';
      assert StartsWith(cmd, "divide") ==> cmd[0] == 'd';
      assert StartsWith(cmd, "multiply") ==> cmd[0] == 'm';
      assert StartsWith(cmd, "add") ==> cmd[0] == 'a';
      if |cmd| > 1 {
        assert StartsWith(cmd, "set") ==> cmd[1] == 'e';
        assert StartsWith(cmd, "simplify") ==> cmd[1] == 'i';
        assert StartsWith(cmd, "subtract") ==> cmd[1] == 'u';
      }
    }
  }

  /**
   * How many characters the side modifier takes: the suffix the command ends
   * with, the longer of two when both match, plus one separator; 0 without one.
   */
  function StripLength(cmd: string): nat {
    if EndsWith(cmd, "on left") then 8
    else if EndsWith(cmd, "left") then 5
    else if EndsWith(cmd, "on right") then 9
    else if EndsWith(cmd, "right") then 6
    else 0
  }

  /**
   * The side-suffix tests, in their priority order "on left", "left",
   * "on right", "right". A match strips the suffix and one more character
   * (the separator), clamped at the start of the string.
   */
  function ExtractSide(cmd: string): (r: (string, Side))
    ensures r.1 == Left <==> EndsWith(cmd, "left")
    ensures r.1 == Right <==> !EndsWith(cmd, "left") && EndsWith(cmd, "right")
    ensures r.1 == Both ==> r.0 == cmd
    ensures StartsWith(cmd, r.0)
    ensures |r.0| == Max(0, |cmd| - StripLength(cmd))
  {
    SidesExclusive(cmd);
    TakeLastTest(cmd, "on left");
    TakeLastTest(cmd, "left");
    TakeLastTest(cmd, "on right");
    TakeLastTest(cmd, "right");
    if TakeLast(cmd, 7) == "on left" then (DropLast(cmd, 8), Left)
    else if TakeLast(cmd, 4) == "left" then (DropLast(cmd, 5), Left)
    else if TakeLast(cmd, 8) == "on right" then (DropLast(cmd, 9), Right)
    else if TakeLast(cmd, 5) == "right" then (DropLast(cmd, 6), Right)
    else (cmd, Both)
  }

  /**
   * The verb tests, in source order, each with its own argument offset:
   * `set` takes `cmd[4:-1]`, `divide by` `cmd[10:]`, bare `divide` `cmd[7:]`,
   * `multiply by` `cmd[12:]`, bare `multiply` `cmd[9:]`, `add` `cmd[4:]` and
   * `subtract` `cmd[9:]`.
   */
  function ParseVerb(cmd: string): (c: Command)
    ensures c.Set? <==> StartsWith(cmd, "set")
    ensures c.Simplify? <==> StartsWith(cmd, "simplify")
    ensures c.Divide? <==> StartsWith(cmd, "divide")
    ensures c.Multiply? <==> StartsWith(cmd, "multiply")
    ensures c.Add? <==> StartsWith(cmd, "add")
    ensures c.Subtract? <==> StartsWith(cmd, "subtract")
    ensures c.Set? ==> |c.expr| == Max(0, |cmd| - 5) && (|c.expr| > 0 ==> cmd == cmd[..4] + c.expr + [cmd[|cmd| - 1]])
    ensures c.IsFactorVerb() ==> EndsWith(cmd, c.factor)
    ensures c.Divide? ==> |c.factor| == Max(0, |cmd| - if StartsWith(cmd, "divide by") then 10 else 7)
    ensures c.Multiply? ==> |c.factor| == Max(0, |cmd| - if StartsWith(cmd, "multiply by") then 12 else 9)
    ensures c.Add? ==> |c.factor| == Max(0, |cmd| - 4)
    ensures c.Subtract? ==> |c.factor| == Max(0, |cmd| - 9)
  {
    VerbsExclusive(cmd);
    TakeTest(cmd, "set");
    TakeTest(cmd, "simplify");
    TakeTest(cmd, "divide by");
    TakeTest(cmd, "divide");
    TakeTest(cmd, "multiply by");
    TakeTest(cmd, "multiply");
    TakeTest(cmd, "add");
    TakeTest(cmd, "subtract");
    if Take(cmd, 3) == "set" then Set(Slice(cmd, 4, 1))
    else if Take(cmd, 8) == "simplify" then Simplify
    else if Take(cmd, 9) == "divide by" || Take(cmd, 6) == "divide" then
      Divide(if Take(cmd, 9) == "divide by" then Drop(cmd, 10) else Drop(cmd, 7))
    else if Take(cmd, 11) == "multiply by" || Take(cmd, 8) == "multiply" then
      Multiply(if Take(cmd, 11) == "multiply by" then Drop(cmd, 12) else Drop(cmd, 9))
    else if Take(cmd, 3) == "add" then Add(Drop(cmd, 4))
    else if Take(cmd, 8) == "subtract" then Subtract(Drop(cmd, 9))
    else Unrecognized
  }

  /** The canonical spelling of a side modifier, with its separating space. */
  function SideText(side: Side): string {
    match side
    case Left => " on left"
    case Right => " on right"
    case Both => ""
  }

  /** The short spelling of a side modifier, without "on". */
  function ShortSideText(side: Side): string
    requires side != Both
  {
    if side == Left then " left" else " right"
  }

  lemma OnLeftRoundTrip(c: string)
    ensures ExtractSide(c + " on left") == (c, Left)
  {
    var cmd := c + " on left";
    assert cmd[..|c|] == c;
    assert EndsWith(cmd, "on left") by { assert cmd[|cmd| - 7..] == "on left"; }
  }

  lemma OnRightRoundTrip(c: string)
    ensures ExtractSide(c + " on right") == (c, Right)
  {
    var cmd := c + " on right";
    assert cmd[..|c|] == c;
    assert EndsWith(cmd, "on right") by { assert cmd[|cmd| - 8..] == "on right"; }
    assert EndsWith(cmd, "right") by { assert cmd[|cmd| - 5..] == "right"; }
    SidesExclusive(cmd);
  }

  /**
   * Appending a side modifier and extracting it again gives the command and
   * the side back; with no modifier, the command must not end in a side word.
   */
  lemma SideRoundTrip(c: string, side: Side)
    requires side == Both ==> !EndsWith(c, "left") && !EndsWith(c, "right")
    ensures ExtractSide(c + SideText(side)) == (c, side)
  {
    match side
    case Left => OnLeftRoundTrip(c);
    case Right => OnRightRoundTrip(c);
    case Both => assert c + SideText(side) == c;
  }

  lemma ShortLeftRoundTrip(c: string)
    requires !EndsWith(c, "on")
    ensures ExtractSide(c + " left") == (c, Left)
  {
    var cmd := c + " left";
    assert cmd[..|c|] == c;
    assert EndsWith(cmd, "left") by { assert cmd[|cmd| - 4..] == "left"; }
    assert !EndsWith(cmd, "on left") by {
      if |cmd| >= 7 { assert cmd[|cmd| - 7..|cmd| - 5] == c[|c| - 2..]; }
    }
    assert TakeLast(cmd, 7) != "on left";
    assert DropLast(cmd, 5) == c;
  }

  lemma ShortRightRoundTrip(c: string)
    requires !EndsWith(c, "on")
    ensures ExtractSide(c + " right") == (c, Right)
  {
    var cmd := c + " right";
    assert cmd[..|c|] == c;
    assert EndsWith(cmd, "right") by { assert cmd[|cmd| - 5..] == "right"; }
    assert !EndsWith(cmd, "on right") by {
      if |cmd| >= 8 { assert cmd[|cmd| - 8..|cmd| - 6] == c[|c| - 2..]; }
    }
    SidesExclusive(cmd);
    assert TakeLast(cmd, 8) != "on right";
    assert DropLast(cmd, 6) == c;
  }

  /**
   * The short modifiers " left" and " right" round-trip too, unless the
   * command ends in "on": then the longer suffix wins and takes three more
   * characters.
   */
  lemma ShortSideRoundTrip(c: string, side: Side)
    requires side != Both
    requires !EndsWith(c, "on")
    ensures ExtractSide(c + ShortSideText(side)) == (c, side)
  {
    if side == Left {
      ShortLeftRoundTrip(c);
    } else {
      ShortRightRoundTrip(c);
    }
  }

  /** The precedence case: "on left" wins over "left", so exactly " on left" goes. */
  lemma OnLeftPrecedence()
    ensures ExtractSide("divide by 2 on left") == ("divide by 2", Left)
  {
    assert "divide by 2" + SideText(Left) == "divide by 2 on left";
    SideRoundTrip("divide by 2", Left);
  }

  /** The canonical text of a command, as the command list spells it. */
  function CommandText(c: Command): string {
    match c
    case Set(e) => "set " + e + ";"
    case Simplify => "simplify"
    case Divide(a) => "divide by " + a
    case Multiply(a) => "multiply by " + a
    case Add(a) => "add " + a
    case Subtract(a) => "subtract " + a
    case Unrecognized => ""
  }

  /** Every command is recognised from its canonical text, argument included. */
  lemma ParseVerbRoundTrip(c: Command)
    ensures ParseVerb(CommandText(c)) == c
  {
    var t := CommandText(c);
    match c
    case Set(e) =>
      assert t[..3] == "set";
      assert t[4..|t| - 1] == e;
    case Simplify =>
    case Divide(a) =>
      assert t[..9] == "divide by";
      assert t[10..] == a;
    case Multiply(a) =>
      assert t[..11] == "multiply by";
      assert t[12..] == a;
    case Add(a) =>
      assert t[..3] == "add";
      assert t[4..] == a;
    case Subtract(a) =>
      assert t[..8] == "subtract";
      assert t[9..] == a;
    case Unrecognized =>
  }

  /**
   * The bare aliases "divide" and "multiply" take the rest after one space,
   * unless that rest starts with "by": then the longer alias wins.
   */
  lemma BareAliases(a: string)
    requires !StartsWith(a, "by")
    ensures ParseVerb("divide " + a) == Divide(a)
    ensures ParseVerb("multiply " + a) == Multiply(a)
  {
    var d := "divide " + a;
    assert d[..6] == "divide";
    assert d[7..] == a;
    assert !StartsWith(d, "divide by") by {
      if |d| >= 9 { assert d[7..9] == a[..2]; }
    }
    var m := "multiply " + a;
    assert m[..8] == "multiply";
    assert m[9..] == a;
    assert !StartsWith(m, "multiply by") by {
      if |m| >= 11 { assert m[9..11] == a[..2]; }
    }
  }
}
