/**
  The scenarios of the incremental lexer's test suite, stated for every scanner that
  agrees with the mode facts the suite relies on.
*/
module LexerScenarios {
  import opened Wrappers
  import opened Lexer

  /**
    What the suite's expectations reveal of the character-level scanner: identifiers lex
    cleanly from `Default` back to `Default`, a lone quote opens a string, and inside a
    string the identifier-like lines stay inside it. Every line is reported without error.
  */
  predicate TestFacts(scan: Scanner)
  {
    && scan(Default, "foo") == ScanResult(Default, false)
    && scan(Default, "foobar") == ScanResult(Default, false)
    && scan(Default, "alpha") == ScanResult(Default, false)
    && scan(Default, "bravo") == ScanResult(Default, false)
    && scan(Default, "charlie") == ScanResult(Default, false)
    && scan(Default, "\"") == ScanResult(String, false)
    && scan(String, "bravo") == ScanResult(String, false)
    && scan(String, "charlie") == ScanResult(String, false)
  }

  /**
    A scanner in the spirit of the real one, reduced to string delimiters: a line that
    holds a quote opens a string from `Default` and closes one from `String`, as a line
    with a single quote does; any other line keeps its mode.
  */
  function QuoteToggle(mode: LineMode, text: string): ScanResult
  {
    var toggled := match mode
      case Default => String
      case String => Default
      case Comment => Comment;
    ScanResult(if '"' in text then toggled else mode, false)
  }

  /** The scanner facts are not contradictory: the quote-toggling scanner meets them. */
  lemma TestFactsSatisfiable()
    ensures TestFacts(QuoteToggle)
  {
    assert "\""[0] == '"';
  }

  /** A line lexed without error, entered in `start` and left in `end`. */
  function Clean(start: LineMode, end: LineMode, text: string): Line { Line(Touched, start, end, text) }

  lemma LexLinesThree(scan: Scanner, x: string, y: string, z: string, mode: LineMode)
    ensures LexLines(scan, [x, y, z], mode)
            == var l0 := LexLine(scan, mode, x);
               var l1 := LexLine(scan, l0.lineModeEnd, y);
               [l0, l1, LexLine(scan, l1.lineModeEnd, z)]
  {
    assert [x, y, z][1..] == [y, z];
    assert [y, z][1..] == [z];
  }

  /** Lexes the three given texts, joined by a newline, and returns the state. */
  function LexThree(scan: Scanner, x: string, y: string, z: string): State
  {
    Lex(scan, x + "\n" + y + "\n" + z, "\n")
  }

  /**
    Lexing three newline-free texts joined by newlines lexes the three texts, and updating
    one of them re-lexes the three texts with that one replaced.
  */
  lemma UpdateThree(scan: Scanner, x: string, y: string, z: string, n: int, text: string)
    requires '\n' !in x && '\n' !in y && '\n' !in z
    requires 0 <= n < 3
    ensures LexThree(scan, x, y, z).lines == LexLines(scan, [x, y, z], Default)
    ensures UpdateLine(scan, LexThree(scan, x, y, z), text, n)
            == Success(State(LexLines(scan, [x, y, z][n := text], Default), "\n"))
  {
    var texts := [x, y, z];
    assert texts[1..] == [y, z];
    assert [y, z][1..] == [z];
    assert Join([z], "\n") == z;
    assert Join([y, z], "\n") == y + "\n" + z;
    assert Join(texts, "\n") == x + "\n" + (y + "\n" + z);
    assert x + "\n" + (y + "\n" + z) == x + "\n" + y + "\n" + z;
    LexJoined(scan, texts, '\n');
    var state := LexThree(scan, x, y, z);
    UpdateLineIsFullRelex(scan, state, text, n);
    assert Texts(state.lines) == texts;
  }

  /** The empty document has one line, so every update to it is out of range except line 0. */
  lemma UpdateOutOfRange(scan: Scanner)
    ensures var state := Lex(scan, "", "\n");
            && |state.lines| == 1
            && UpdateLine(scan, state, "", -1) == Failure(LineNumberNegative(-1))
            && UpdateLine(scan, state, "", 1) == Failure(LineNumberTooLarge(1, 1))
            && UpdateLine(scan, state, "", 2) == Failure(LineNumberTooLarge(2, 1))
  {
    assert Split("", "\n") == [""];
  }

  /** Lexing a one-line text and then rewriting that line lexes the new text from `Default`. */
  lemma UpdateOne(scan: Scanner, x: string, text: string)
    requires '\n' !in x
    ensures Lex(scan, x, "\n").lines == [LexLine(scan, Default, x)]
    ensures UpdateLine(scan, Lex(scan, x, "\n"), text, 0) == Success(State([LexLine(scan, Default, text)], "\n"))
  {
    LexJoined(scan, [x], '\n');
    var state := Lex(scan, x, "\n");
    assert [x][1..] == [] && [text][1..] == [];
    assert state.lines == [LexLine(scan, Default, x)];
    UpdateLineIsFullRelex(scan, state, text, 0);
    assert Texts(state.lines)[0 := text] == [text];
    assert LexLines(scan, [text], Default) == [LexLine(scan, Default, text)] + LexLines(scan, [], LexLine(scan, Default, text).lineModeEnd);
    assert LexLines(scan, [text], Default) == [LexLine(scan, Default, text)];
    assert UpdateLine(scan, state, text, 0) == Success(State(LexLines(scan, [text], Default), state.lineTerminator));
    assert state.lineTerminator == "\n";
  }

  /** A single line: `foo` to `foobar`, `foo` to a lone quote, and a lone quote to `foobar`. */
  lemma SingleLineUpdates(scan: Scanner)
    requires TestFacts(scan)
    ensures var foo := Lex(scan, "foo", "\n");
            && foo.lines == [Clean(Default, Default, "foo")]
            && UpdateLine(scan, foo, "foobar", 0) == Success(State([Clean(Default, Default, "foobar")], "\n"))
            && UpdateLine(scan, foo, "\"", 0) == Success(State([Clean(Default, String, "\"")], "\n"))
    ensures var quote := Lex(scan, "\"", "\n");
            && quote.lines == [Clean(Default, String, "\"")]
            && UpdateLine(scan, quote, "foobar", 0) == Success(State([Clean(Default, Default, "foobar")], "\n"))
  {
    UpdateOne(scan, "foo", "foobar");
    UpdateOne(scan, "foo", "\"");
    UpdateOne(scan, "\"", "foobar");
  }

  /** Three lines, one of them rewritten to `foobar`: the modes do not change, nor do the other lines. */
  lemma NoModeChange(scan: Scanner, n: int)
    requires TestFacts(scan)
    requires 0 <= n < 3
    ensures var state := LexThree(scan, "alpha", "bravo", "charlie");
            && state.lines == [Clean(Default, Default, "alpha"), Clean(Default, Default, "bravo"), Clean(Default, Default, "charlie")]
            && UpdateLine(scan, state, "foobar", n)
               == Success(State([Clean(Default, Default, "alpha"), Clean(Default, Default, "bravo"), Clean(Default, Default, "charlie")][n := Clean(Default, Default, "foobar")], "\n"))
  {
    UpdateThree(scan, "alpha", "bravo", "charlie", n, "foobar");
    LexLinesThree(scan, "alpha", "bravo", "charlie", Default);
    if n == 0 {
      LexLinesThree(scan, "foobar", "bravo", "charlie", Default);
    } else if n == 1 {
      LexLinesThree(scan, "alpha", "foobar", "charlie", Default);
    } else {
      LexLinesThree(scan, "alpha", "bravo", "foobar", Default);
    }
  }


  /** Three lines, one of them rewritten to a lone quote: every later line is now inside a string. */
  lemma DefaultToString(scan: Scanner, n: int)
    requires TestFacts(scan)
    requires 0 <= n < 3
    ensures var state := LexThree(scan, "alpha", "bravo", "charlie");
            && state.lines == [Clean(Default, Default, "alpha"), Clean(Default, Default, "bravo"), Clean(Default, Default, "charlie")]
            && UpdateLine(scan, state, "\"", n)
               == Success(State(
                    if n == 0 then [Clean(Default, String, "\""), Clean(String, String, "bravo"), Clean(String, String, "charlie")]
                    else if n == 1 then [Clean(Default, Default, "alpha"), Clean(Default, String, "\""), Clean(String, String, "charlie")]
                    else [Clean(Default, Default, "alpha"), Clean(Default, Default, "bravo"), Clean(Default, String, "\"")],
                    "\n"))
  {
    LexLinesThree(scan, "alpha", "bravo", "charlie", Default);
    UpdateThree(scan, "alpha", "bravo", "charlie", n, "\"");
    QuoteReplaces(scan, n);
  }

  /** The relexing `DefaultToString` reduces to, one case at a time. */
  lemma QuoteReplaces(scan: Scanner, n: int)
    requires TestFacts(scan)
    requires 0 <= n < 3
    ensures LexLines(scan, ["alpha", "bravo", "charlie"][n := "\""], Default)
            == if n == 0 then [Clean(Default, String, "\""), Clean(String, String, "bravo"), Clean(String, String, "charlie")]
               else if n == 1 then [Clean(Default, Default, "alpha"), Clean(Default, String, "\""), Clean(String, String, "charlie")]
               else [Clean(Default, Default, "alpha"), Clean(Default, Default, "bravo"), Clean(Default, String, "\"")]
  {
    if n == 0 {
      assert ["alpha", "bravo", "charlie"][n := "\""] == ["\"", "bravo", "charlie"];
      LexLinesThree(scan, "\"", "bravo", "charlie", Default);
    } else if n == 1 {
      assert ["alpha", "bravo", "charlie"][n := "\""] == ["alpha", "\"", "charlie"];
      LexLinesThree(scan, "alpha", "\"", "charlie", Default);
    } else {
      assert ["alpha", "bravo", "charlie"][n := "\""] == ["alpha", "bravo", "\""];
      LexLinesThree(scan, "alpha", "bravo", "\"", Default);
    }
  }

  /** A lone quote on the first of three lines rewritten to `foobar`: every line is back in `Default`. */
  lemma StringToDefaultFirst(scan: Scanner)
    requires TestFacts(scan)
    ensures var state := LexThree(scan, "\"", "bravo", "charlie");
            && state.lines == [Clean(Default, String, "\""), Clean(String, String, "bravo"), Clean(String, String, "charlie")]
            && UpdateLine(scan, state, "foobar", 0)
               == Success(State([Clean(Default, Default, "foobar"), Clean(Default, Default, "bravo"), Clean(Default, Default, "charlie")], "\n"))
  {
    UpdateThree(scan, "\"", "bravo", "charlie", 0, "foobar");
    assert ["\"", "bravo", "charlie"][0 := "foobar"] == ["foobar", "bravo", "charlie"];
    LexLinesThree(scan, "\"", "bravo", "charlie", Default);
    LexLinesThree(scan, "foobar", "bravo", "charlie", Default);
  }

  /** A lone quote on the middle one of three lines rewritten to `foobar`: every line is back in `Default`. */
  lemma StringToDefaultMiddle(scan: Scanner)
    requires TestFacts(scan)
    ensures var state := LexThree(scan, "alpha", "\"", "charlie");
            && state.lines == [Clean(Default, Default, "alpha"), Clean(Default, String, "\""), Clean(String, String, "charlie")]
            && UpdateLine(scan, state, "foobar", 1)
               == Success(State([Clean(Default, Default, "alpha"), Clean(Default, Default, "foobar"), Clean(Default, Default, "charlie")], "\n"))
  {
    UpdateThree(scan, "alpha", "\"", "charlie", 1, "foobar");
    assert ["alpha", "\"", "charlie"][1 := "foobar"] == ["alpha", "foobar", "charlie"];
    LexLinesThree(scan, "alpha", "\"", "charlie", Default);
    LexLinesThree(scan, "alpha", "foobar", "charlie", Default);
  }

  /** A lone quote on the last of three lines rewritten to `foobar`: every line is back in `Default`. */
  lemma StringToDefaultLast(scan: Scanner)
    requires TestFacts(scan)
    ensures var state := LexThree(scan, "alpha", "bravo", "\"");
            && state.lines == [Clean(Default, Default, "alpha"), Clean(Default, Default, "bravo"), Clean(Default, String, "\"")]
            && UpdateLine(scan, state, "foobar", 2)
               == Success(State([Clean(Default, Default, "alpha"), Clean(Default, Default, "bravo"), Clean(Default, Default, "foobar")], "\n"))
  {
    UpdateThree(scan, "alpha", "bravo", "\"", 2, "foobar");
    assert ["alpha", "bravo", "\""][2 := "foobar"] == ["alpha", "bravo", "foobar"];
    LexLinesThree(scan, "alpha", "bravo", "\"", Default);
    LexLinesThree(scan, "alpha", "bravo", "foobar", Default);
  }
}
