# Algebration command interpreter, modelled in Dafny

Algebration is a small desktop algebra assistant. The user types or speaks short commands such as
`set x**2 == 4;`, `divide by 2 on left` or `simplify`, and each command changes the one equation on
display. This project models the command interpreter of `main.py`:

- `convert` rewrites the command text with the conversion table (spoken words to symbols).
- `process_command` strips a trailing side modifier (`on left`, `left`, `on right`, `right`),
  recognises the verb by its prefix, cuts out its argument at a fixed offset and replaces the
  global `expression` on success, or keeps it and writes one error line to the console on failure.
- `update_console` appends a line `> text` to the console.
- `on_enter` echoes the raw input and then runs it as a command.

Layout, one module per component:

| file | module | what it holds |
|---|---|---|
| `wrappers.dfy` | `Wrappers` | `Option` and `Result` |
| `pystrings.dfy` | `PyStrings` | Python's clamped slices and `str.find`, `str.split`, `str.join`, `str.replace` |
| `normalizer.dfy` | `Normalizer` | `convert`: a specification function `ConvertAll` and the loop `Convert` |
| `commands.dfy` | `Commands` | side-suffix extraction (`ExtractSide`) and verb recognition (`ParseVerb`) |
| `engine.dfy` | `Engine` | SymPy as a record of operations (`Algebra`), and the transition `Apply` / `Interpret` |
| `session.dfy` | `Interpreter` | class `Session`: `expression`, `console`, `renders`, and the entry points |

SymPy is not modelled. The interpreter sees it only through the calls it makes, so the model takes
a record `Algebra<E>` of six functions over an unspecified expression type `E`: `parse`
(`parse_expr(..., evaluate=False)`), `simplify`, `div` (`a / b`), `mkEq` (`sp.Eq`), `lhs` and `rhs`.
Every call inside a factor branch's `try` returns an `Option`, and `None` means that the call raised.
No algebraic law is assumed. Two lemmas about side selection need one structural hypothesis,
`EqualityKeepsSides`: an `Eq` that still has sides has the sides it was built from. SymPy may
instead collapse an `Eq` to a truth value, which has no sides.

Multiply, add and subtract are modelled exactly as the code has them: each divides the selected
side(s) by its factor, like divide does (`main.py:199-244`). The model keeps this behaviour
rather than giving each verb its own arithmetic. `FactorCommandDivides` states it as a property.

Quirks of the code that the model keeps:
- Arguments start at fixed offsets (`cmd[10:]`, `cmd[7:]`, `cmd[4:]`, ...). The character skipped
  after the verb is dropped whatever it is, not only when it is a space.
- `set` takes `cmd[4:-1]`, which always drops the last character of the line.
- The side-suffix tests have no word boundary. A command ending in `on left` loses 8 characters
  even when `on` ends a longer word (`... lemon left` keeps `... le`). `ShortSideRoundTrip`
  therefore requires that the command not end in `on`.
- `divide by` wins over `divide` whenever the text after `divide ` starts with `by`
  (see `BareAliases`).
- A failure to read the conversion file is not caught. The exception leaves `process_command`
  before anything changes: no console line and no render. `on_enter` has already echoed the input
  by then.
- The code takes no lock. Both input paths call the same sequence, and the model is sequential.

Strings are Dafny `string`s. A Dafny `char` is a Unicode scalar value, like a code point of a
Python `str`.

## Model

| member | source | states |
|---|---|---|
| `PyStrings.Replace` | main.py:147 | `s.replace(key, val)` with a non-empty key equals `val.join(s.split(key))`: the string is cut at every leftmost non-overlapping occurrence and glued back with `val`; the empty key puts `val` before, between and after the characters |
| `PyStrings.SplitPiecesAreFree` | main.py:147 | no piece between two replaced occurrences contains the key, so no occurrence is left unreplaced within a piece |
| `PyStrings.JoinSplit` | main.py:147 | joining the pieces with the key itself gives the original string back |
| `PyStrings.ReplaceAbsent` | main.py:147 | a key that does not occur leaves the string unchanged (the empty key always occurs) |
| `PyStrings.ReplaceSelf` | main.py:147 | replacing a key by itself is the identity, including Python's empty-key case |
| `PyStrings.Find` | main.py:147 | the first-occurrence search on which the model's `split` and `replace` are built (the code itself never calls `str.find`): the result is an index where the key occurs, and no earlier index holds an occurrence |
| `Normalizer.Convert` | main.py:142-148 | the loop over the table computes `ConvertAll`: entry after entry, each replacing its key in the current string |
| `Normalizer.ConvertInOrder` | main.py:145-147 | converting by `t1 + t2` is converting by `t1`, then by `t2`: entries apply in table order |
| `Normalizer.ConvertOneEntry` | main.py:146-147 | one entry turns the string into its key-free pieces joined by the value, and those pieces joined by the key give the string back |
| `Normalizer.ConvertAbsentKeys` | main.py:145-147 | if no key of the table occurs in the command, the command is unchanged; in particular the empty table leaves it unchanged |
| `Normalizer.ConvertIdentityTable` | main.py:145-147 | a table mapping every key to itself leaves every command unchanged |
| `Normalizer.ConvertOrderMatters` | main.py:145-147 | `[a->b, b->c]` turns `a` into `c`, and the reversed table turns it into `b` |
| `Commands.ExtractSide` | main.py:155-168 | the side is Left iff the command ends in `left`, and Right iff it ends in `right` and not in `left`; the rest is a prefix of the command, shorter by the matched suffix plus one character (clamped), and unchanged when nothing matches |
| `Commands.SidesExclusive` | main.py:157-168 | no command ends in both `left` and `right`, so the two pairs of tests never compete |
| `Commands.SideRoundTrip` | main.py:157-168 | appending ` on left` or ` on right` and extracting gives the command and the side back; with no modifier the command comes back unchanged, with side Both |
| `Commands.ShortSideRoundTrip` | main.py:157-168 | ` left` and ` right` also come back off exactly, provided the command does not end in `on` |
| `Commands.OnLeftPrecedence` | main.py:157-159 | `divide by 2 on left` matches `on left`, not `left`, and leaves exactly `divide by 2` |
| `Commands.VerbsExclusive` | main.py:169-232 | the verb prefixes exclude each other, and `divide by` / `multiply by` imply `divide` / `multiply` |
| `Commands.ParseVerb` | main.py:169-247 | each verb is chosen iff the command starts with its prefix; the `set` argument is the line without its first four and its last character; each factor argument is a suffix of the command whose length is the command's length minus the verb's offset, clamped at 0 |
| `Commands.ParseVerbRoundTrip` | main.py:169-234 | every command is recognised from its canonical text (`set E;`, `simplify`, `divide by a`, `multiply by a`, `add a`, `subtract a`) with its argument intact |
| `Commands.BareAliases` | main.py:181-204 | `divide a` and `multiply a` take `a` as the factor, unless `a` starts with `by` |
| `Engine.Combine` | main.py:189-194 | the `try` body of a factor branch (the same in `main.py:207-212`, `222-227`, `237-242`): it fails when the equation has no sides; otherwise on the left it is `Eq(lhs / f, rhs)`, on the right `Eq(lhs, rhs / f)`, with no modifier `Eq(lhs / f, rhs / f)`, and it fails when a division it needs fails |
| `Engine.Apply` | main.py:169-247 | `set` succeeds iff its argument parses, and the new equation is that parse; `simplify` always gives the simplified equation; an unrecognised command fails with "Unrecognized command!"; a factor verb succeeds iff its factor parses and the division of the selected side(s) and the new `Eq` succeed, and then the new equation is `Eq(lhs / f, rhs)` on the left, `Eq(lhs, rhs / f)` on the right, `Eq(lhs / f, rhs / f)` with no modifier; every failure carries its branch's message |
| `Engine.Interpret` | main.py:155-247 | every failure message is one of the three the code writes; the result is "Unrecognized command!" exactly when the command, once its side modifier is stripped, starts with none of the six verbs; a command starting with `simplify` gives the simplified equation whatever its modifier |
| `Engine.InterpretCanonical` | main.py:155-247 | a command spelt out with a side modifier is interpreted as that command on that side |
| `Engine.SetCommand` | main.py:169-175 | `set E;`, with any side modifier, gives the parse of `E`, or "Invalid expression!" when `E` does not parse |
| `Engine.SimplifyCommand` | main.py:177-179 | `simplify` ignores the side modifier and gives the simplified equation |
| `Engine.FactorCommandDivides` | main.py:181-244 | `multiply by a`, `add a`, `subtract a` and `divide by a` give the same result on the same side |
| `Engine.BogusCommand` | main.py:246-247 | `bogus command` gives "Unrecognized command!" |
| `Engine.DivisionTargetsSide` | main.py:187-194 | after a successful factor command whose result is still an equation: on the left the left side is divided and the right side kept, on the right the reverse, with no modifier both sides divided |
| `Engine.LeftThenRight` | main.py:189-194 | dividing the left side by a factor and then the right side by the same factor equals dividing both sides at once |
| `Engine.DivideByTwoOnLeft` | main.py:157-190 | `divide by 2 on left` divides by 2 on the left only |
| `Engine.DivideByTwo` | main.py:181-194 | `divide by 2` divides both sides by 2 |
| `Interpreter.ConsoleLine` | main.py:255 | a console line is `> ` followed by the text: two characters longer, starting with `> `, and the rest is the text |
| `Interpreter.Session.constructor` | main.py:103-104 | the session starts with the parse of `x**2 == 4`, an empty console and one render |
| `Interpreter.Session.UpdateConsole` | main.py:253-257 | exactly one line `> text` is appended to the console; nothing else changes |
| `Interpreter.Session.DivideSides` | main.py:187-196 | the factor `try` block: on success the equation is replaced by the division result, otherwise it is kept and one "Invalid factor!" line is logged |
| `Interpreter.Session.ProcessCommand` | main.py:151-250 | after conversion, the equation is replaced on success and kept on failure, a failure adds exactly one console line, and one render is requested; an unreadable conversion table changes nothing |
| `Interpreter.Session.OnEnter` | main.py:258-262 | the raw input is echoed first, then processed as `ProcessCommand` does |

## Left out

- The Tkinter window, menu labels, widgets and event bindings (`main.py:47-92`, `126-140`, `265-271`). These are user interface.
- Rendering with matplotlib and PIL, and `update_display` (`main.py:94-111`). The model only counts render requests (`renders`).
- The voice path: the audio callback, the queue, the `listening` flag and the worker thread (`main.py:14-43`, `115-124`). Its only effect on the interpreter is the same echo-then-process sequence that `OnEnter` models (`main.py:42-43`).
- Reading `conversions.json` (`main.py:143-144`). The table comes in as a parameter, in insertion order, and `None` stands for a read that fails.
- Reading and clearing the entry widget in `on_enter` (`main.py:259-260`). The input text is a parameter.
- SymPy's meaning: parsing, simplification, division and `Eq` are the uninterpreted `Algebra` operations. Whether `simplify` is idempotent is a SymPy property and is not stated.
- `simplify` is total in the model. In the code it runs outside any `try`, so an exception there would leave `process_command` without a render.
- The debug `print` calls.
- Engine.DivisionTargetsSide: holds only for a collaborator whose `Eq` keeps the sides it was given (`EqualityKeepsSides`) and for a result that still has sides. SymPy's `Eq` may collapse to a truth value.
- Engine.LeftThenRight: needs the same hypothesis, and an intermediate equation that still has sides.
