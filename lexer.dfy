/**
  The incremental lexer's line store.

  A lexer state is an ordered sequence of lines. Each line remembers the lexical
  mode it was entered in and the mode it was left in, so that editing one line
  only re-lexes that line and the following lines whose starting mode changed.

  The character-level scanner is not part of this model: every operation takes it
  as a parameter `scan`, which maps a starting mode and a line's text to the mode
  the line ends in and whether the line holds a lexical error.
*/
module Lexer {
  import opened Wrappers

  /** What construct, if any, is left open at a line boundary. */
  datatype LineMode = Default | Comment | String

  /** Whether a re-lexed line came out clean or with a line-local lexical error. */
  datatype LineKind = Touched | TouchedWithError

  /** The abridged view of one lexed line: its kind, its entry and exit modes and its text. */
  datatype Line = Line(kind: LineKind, lineModeStart: LineMode, lineModeEnd: LineMode, text: string)

  /** What the per-line scanner reports about one line. */
  datatype ScanResult = ScanResult(modeEnd: LineMode, hasError: bool)

  /** The per-line scanner: the starting mode and the text of one line to its report. */
  type Scanner = (LineMode, string) -> ScanResult

  /** A lexed document: its lines and the terminator that separated them. */
  datatype State = State(lines: seq<Line>, lineTerminator: string)

  /** The two ways `updateLine` rejects a line number, each with the values it compared. */
  datatype UpdateError =
    | LineNumberNegative(lineNumber: int)
    | LineNumberTooLarge(lineNumber: int, numLines: nat)

  // ---------------------------------------------------------------------------
  // Lexing one line and a sequence of lines
  // ---------------------------------------------------------------------------

  /** The line that lexing `text` from `mode` produces. */
  function LexLine(scan: Scanner, mode: LineMode, text: string): Line
  {
    var report := scan(mode, text);
    Line(if report.hasError then TouchedWithError else Touched, mode, report.modeEnd, text)
  }

  /** The texts of `lines`, in order. */
  function Texts(lines: seq<Line>): (texts: seq<string>)
    ensures |texts| == |lines|
    ensures forall j :: 0 <= j < |lines| ==> texts[j] == lines[j].text
  {
    seq(|lines|, j requires 0 <= j < |lines| => lines[j].text)
  }

  /** The line `line` is what the scanner yields for its own start mode and text. */
  ghost predicate Relexed(scan: Scanner, line: Line)
  {
    line == LexLine(scan, line.lineModeStart, line.text)
  }

  /**
    Lines lo..hi-1 are each consistent with the scanner, and each of them except the
    last is left in the mode the next one is entered in.
  */
  ghost predicate ChainedOn(scan: Scanner, lines: seq<Line>, lo: nat, hi: nat)
    requires lo <= hi <= |lines|
  {
    && (forall j :: lo <= j < hi ==> Relexed(scan, lines[j]))
    && (forall j :: lo <= j < hi - 1 ==> lines[j].lineModeEnd == lines[j + 1].lineModeStart)
  }

  /**
    The invariant of every state that lexing or updating produces: the first line is
    entered in `Default`, every line is consistent with the scanner, and each line's end
    mode is the next line's start mode.
  */
  ghost predicate Valid(scan: Scanner, lines: seq<Line>)
  {
    && (|lines| > 0 ==> lines[0].lineModeStart == Default)
    && ChainedOn(scan, lines, 0, |lines|)
  }

  /** Lexes `texts` in order, entering the first one in `mode` and each later one in the mode its predecessor ended in. */
  function LexLines(scan: Scanner, texts: seq<string>, mode: LineMode): (lines: seq<Line>)
    ensures Texts(lines) == texts
    ensures |lines| > 0 ==> lines[0].lineModeStart == mode
    ensures ChainedOn(scan, lines, 0, |lines|)
    decreases |texts|
  {
    if texts == [] then []
    else
      var first := LexLine(scan, mode, texts[0]);
      var rest := LexLines(scan, texts[1..], first.lineModeEnd);
      assert forall j :: 1 <= j < |rest| + 1 ==> ([first] + rest)[j] == rest[j - 1];
      [first] + rest
  }

  // ---------------------------------------------------------------------------
  // Splitting the document text into lines
  // ---------------------------------------------------------------------------

  /** Splits `s` at every occurrence of `t`, leftmost first, as a string split does. */
  function Split(s: string, t: string): (pieces: seq<string>)
    requires |t| > 0
    ensures |pieces| >= 1
    // a text shorter than the terminator, the empty text included, is one piece
    ensures |s| < |t| ==> pieces == [s]
    decreases |s|
  {
    if |s| < |t| then [s]
    else if s[..|t|] == t then [""] + Split(s[|t|..], t)
    else
      var rest := Split(s[1..], t);
      [[s[0]] + rest[0]] + rest[1..]
  }

  /**
    With a one-character terminator the text is cut at every occurrence of it: no piece
    keeps one, and there is one piece more than there are occurrences.
  */
  lemma {:induction false} SplitCutsEverywhere(s: string, c: char)
    ensures forall j :: 0 <= j < |Split(s, [c])| ==> c !in Split(s, [c])[j]
    ensures |Split(s, [c])| == multiset(s)[c] + 1
    decreases |s|
  {
    var t := [c];
    if |s| < 1 {
    } else if s[..1] == t {
      var rest := Split(s[1..], t);
      SplitCutsEverywhere(s[1..], c);
      assert s == [c] + s[1..];
      assert multiset(s) == multiset{c} + multiset(s[1..]);
      assert forall j :: 1 <= j < |rest| + 1 ==> ([""] + rest)[j] == rest[j - 1];
    } else {
      var rest := Split(s[1..], t);
      SplitCutsEverywhere(s[1..], c);
      assert s == [s[0]] + s[1..];
      assert s[0] != c && multiset(s)[c] == multiset(s[1..])[c];
      assert forall j :: 1 <= j < |rest| ==> ([[s[0]] + rest[0]] + rest[1..])[j] == rest[j];
    }
  }

  /** With a one-character terminator, a text that ends in the terminator splits into a last piece that is empty. */
  lemma {:induction false} SplitTrailingTerminator(s: string, c: char)
    requires |s| > 0 && s[|s| - 1] == c
    ensures var pieces := Split(s, [c]); pieces[|pieces| - 1] == ""
    decreases |s|
  {
    var t := [c];
    if s[..1] == t {
      if |s| > 1 {
        SplitTrailingTerminator(s[1..], c);
      } else {
        assert s[1..] == "";
      }
    } else {
      assert s[|s| - 1] in multiset(s[1..]);
      SplitCutsEverywhere(s[1..], c);
      SplitTrailingTerminator(s[1..], c);
    }
  }

  /** Concatenates `pieces` with `t` between neighbours. */
  function Join(pieces: seq<string>, t: string): string
    requires |pieces| >= 1
    decreases |pieces|
  {
    if |pieces| == 1 then pieces[0] else pieces[0] + t + Join(pieces[1..], t)
  }

  /** Splitting loses nothing: joining the pieces again gives back the text. */
  lemma {:induction false} JoinSplit(s: string, t: string)
    requires |t| > 0
    ensures Join(Split(s, t), t) == s
    decreases |s|
  {
    if |s| < |t| {
    } else if s[..|t|] == t {
      var tail := s[|t|..];
      JoinSplit(tail, t);
      assert Split(s, t) == [""] + Split(tail, t);
      assert s == t + tail;
      JoinCons("", Split(tail, t), t);
    } else {
      var rest := Split(s[1..], t);
      JoinSplit(s[1..], t);
      assert Split(s, t) == [[s[0]] + rest[0]] + rest[1..];
      JoinHead(s[0], rest, t);
      assert s == [s[0]] + s[1..];
    }
  }

  lemma JoinCons(p: string, pieces: seq<string>, t: string)
    requires |pieces| >= 1
    ensures Join([p] + pieces, t) == p + t + Join(pieces, t)
  {
    assert ([p] + pieces)[1..] == pieces;
  }

  lemma JoinHead(c: char, pieces: seq<string>, t: string)
    requires |pieces| >= 1
    ensures Join([[c] + pieces[0]] + pieces[1..], t) == [c] + Join(pieces, t)
  {
    if |pieces| > 1 {
      JoinCons([c] + pieces[0], pieces[1..], t);
      assert [c] + pieces[0] + t + Join(pieces[1..], t) == [c] + (pieces[0] + t + Join(pieces[1..], t));
    }
  }

  /** A text free of the separator character splits off as the head of the first piece. */
  lemma {:induction false} SplitPrefix(a: string, s: string, c: char)
    requires c !in a
    ensures Split(a + s, [c]) == [a + Split(s, [c])[0]] + Split(s, [c])[1..]
    decreases |a|
  {
    if a == [] {
      assert a + s == s;
      assert a + Split(s, [c])[0] == Split(s, [c])[0];
      assert Split(s, [c]) == [Split(s, [c])[0]] + Split(s, [c])[1..];
    } else {
      var u := a + s;
      assert u[..1] == [a[0]] != [c];
      assert u[1..] == a[1..] + s;
      SplitPrefix(a[1..], s, c);
      assert [a[0]] + (a[1..] + Split(s, [c])[0]) == a + Split(s, [c])[0];
    }
  }

  /** With a one-character terminator that no piece contains, splitting undoes joining. */
  lemma {:induction false} SplitJoin(pieces: seq<string>, c: char)
    requires |pieces| >= 1
    requires forall j :: 0 <= j < |pieces| ==> c !in pieces[j]
    ensures Split(Join(pieces, [c]), [c]) == pieces
    decreases |pieces|
  {
    if |pieces| == 1 {
      SplitPrefix(pieces[0], [], c);
      assert pieces[0] + [] == pieces[0];
      assert pieces[0] + "" == pieces[0];
    } else {
      var rest := Join(pieces[1..], [c]);
      SplitJoin(pieces[1..], c);
      assert Join(pieces, [c]) == pieces[0] + ([c] + rest);
      SplitPrefix(pieces[0], [c] + rest, c);
      var u := [c] + rest;
      assert u[..1] == [c];
      assert u[1..] == rest;
      assert Split(u, [c]) == [""] + pieces[1..];
      assert pieces[0] + "" == pieces[0];
      assert pieces == [pieces[0]] + pieces[1..];
    }
  }

  // ---------------------------------------------------------------------------
  // Full lex
  // ---------------------------------------------------------------------------

  /**
    Lexes a whole document: splits it at `lineTerminator` and lexes the lines in order,
    the first from `Default`.
  */
  function Lex(scan: Scanner, text: string, lineTerminator: string): (state: State)
    requires |lineTerminator| > 0
    ensures state.lineTerminator == lineTerminator
    ensures |state.lines| >= 1
    ensures Join(Texts(state.lines), lineTerminator) == text
    ensures Valid(scan, state.lines)
  {
    JoinSplit(text, lineTerminator);
    State(LexLines(scan, Split(text, lineTerminator), Default), lineTerminator)
  }

  /**
    With a one-character terminator, lexing ends a line at every occurrence of it: no
    line's text holds one, and there is one line more than there are occurrences. With
    the round trip of `Lex`, this fixes the lines' texts (see `SplitJoin`).
  */
  lemma LexCutsAtEveryTerminator(scan: Scanner, text: string, c: char)
    ensures var lines := Lex(scan, text, [c]).lines;
            && (forall j :: 0 <= j < |lines| ==> c !in lines[j].text)
            && |lines| == multiset(text)[c] + 1
  {
    SplitCutsEverywhere(text, c);
  }

  /**
    Lexing a document joined from pieces with a one-character terminator that no piece
    holds lexes exactly those pieces, in order.
  */
  lemma LexJoined(scan: Scanner, pieces: seq<string>, c: char)
    requires |pieces| >= 1
    requires forall j :: 0 <= j < |pieces| ==> c !in pieces[j]
    ensures Lex(scan, Join(pieces, [c]), [c]).lines == LexLines(scan, pieces, Default)
  {
    SplitJoin(pieces, c);
  }

  // ---------------------------------------------------------------------------
  // Incremental update
  // ---------------------------------------------------------------------------

  /**
    Re-lexes line `i` from `mode`. When the line now ends in a different mode than it did
    before, the next line is re-lexed from that new mode with its own text, and so on;
    the cascade stops at the first line whose end mode comes out unchanged, or at the end
    of the document.
  */
  function Cascade(scan: Scanner, lines: seq<Line>, i: nat, mode: LineMode): (r: seq<Line>)
    requires i < |lines|
    ensures |r| == |lines|
    ensures r[..i] == lines[..i]
    ensures r[i] == LexLine(scan, mode, lines[i].text)
    ensures forall j :: 0 <= j < |r| ==> r[j].text == lines[j].text
    // a later line changes exactly when its predecessor's end mode changed, and then it
    // is re-lexed from that predecessor's new end mode
    ensures forall j :: i < j < |r| ==>
              r[j] == if r[j - 1].lineModeEnd == lines[j - 1].lineModeEnd then lines[j]
                      else LexLine(scan, r[j - 1].lineModeEnd, lines[j].text)
    decreases |lines| - i
  {
    var line := LexLine(scan, mode, lines[i].text);
    var next := lines[i := line];
    if line.lineModeEnd == lines[i].lineModeEnd || i + 1 == |lines| then next
    else Cascade(scan, next, i + 1, line.lineModeEnd)
  }

  /**
    Replaces the text of line `lineNumber` and re-lexes it from the mode it was entered
    in, cascading into the following lines while their start mode changes. A negative
    line number, or one at or past the number of lines, is rejected and says which bound
    it broke.
  */
  function UpdateLine(scan: Scanner, state: State, text: string, lineNumber: int): (r: Result<State, UpdateError>)
    ensures lineNumber < 0 ==> r == Failure(LineNumberNegative(lineNumber))
    ensures 0 <= lineNumber && |state.lines| <= lineNumber ==>
              r == Failure(LineNumberTooLarge(lineNumber, |state.lines|))
    ensures 0 <= lineNumber < |state.lines| ==> r.Success?
    ensures r.Success? ==>
              var before := state.lines;
              var after := r.value.lines;
              && 0 <= lineNumber < |before|
              && r.value.lineTerminator == state.lineTerminator
              && |after| == |before|
              // lines before the edit are untouched
              && after[..lineNumber] == before[..lineNumber]
              // the edited line keeps its start mode and takes the new text and its end mode
              && after[lineNumber] == LexLine(scan, before[lineNumber].lineModeStart, text)
              // no other line's text changes
              && (forall j :: 0 <= j < |before| && j != lineNumber ==> after[j].text == before[j].text)
              // an unchanged end mode leaves every other line as it was
              && (after[lineNumber].lineModeEnd == before[lineNumber].lineModeEnd ==>
                    after == before[lineNumber := after[lineNumber]])
  {
    if lineNumber < 0 then Failure(LineNumberNegative(lineNumber))
    else if lineNumber >= |state.lines| then Failure(LineNumberTooLarge(lineNumber, |state.lines|))
    else
      var line := state.lines[lineNumber];
      var edited := state.lines[lineNumber := line.(text := text)];
      var lines := Cascade(scan, edited, lineNumber, line.lineModeStart);
      assert lines[lineNumber].lineModeEnd == line.lineModeEnd ==>
               lines == state.lines[lineNumber := lines[lineNumber]];
      Success(State(lines, state.lineTerminator))
  }

  // ---------------------------------------------------------------------------
  // Properties of the update
  // ---------------------------------------------------------------------------

  /**
    A cascade keeps the document valid when it starts at a line entered in the right mode,
    with every line before it and every line after it already consistent.
  */
  lemma {:induction false} CascadeKeepsValid(scan: Scanner, lines: seq<Line>, i: nat, mode: LineMode)
    requires i < |lines|
    requires i == 0 ==> mode == Default
    requires i > 0 ==> lines[0].lineModeStart == Default && lines[i - 1].lineModeEnd == mode
    requires ChainedOn(scan, lines, 0, i)
    requires ChainedOn(scan, lines, i + 1, |lines|)
    requires i + 1 < |lines| ==> lines[i].lineModeEnd == lines[i + 1].lineModeStart
    ensures Valid(scan, Cascade(scan, lines, i, mode))
    decreases |lines| - i
  {
    var line := LexLine(scan, mode, lines[i].text);
    var next := lines[i := line];
    SetChained(scan, lines, i, line);
    if line.lineModeEnd == lines[i].lineModeEnd || i + 1 == |lines| {
      assert Cascade(scan, lines, i, mode) == next;
      ChainJoin(scan, next, i);
    } else {
      assert Cascade(scan, lines, i, mode) == Cascade(scan, next, i + 1, line.lineModeEnd);
      CascadeKeepsValid(scan, next, i + 1, line.lineModeEnd);
    }
  }

  /** Replacing line `i` by a consistent line entered in its predecessor's end mode keeps both sides chained. */
  lemma SetChained(scan: Scanner, lines: seq<Line>, i: nat, line: Line)
    requires i < |lines|
    requires ChainedOn(scan, lines, 0, i) && ChainedOn(scan, lines, i + 1, |lines|)
    requires Relexed(scan, line)
    requires i > 0 ==> lines[i - 1].lineModeEnd == line.lineModeStart
    ensures ChainedOn(scan, lines[i := line], 0, i + 1)
    ensures ChainedOn(scan, lines[i := line], i + 1, |lines|)
  {
  }

  /** Two chained runs that meet in matching modes form one chained run. */
  lemma ChainJoin(scan: Scanner, lines: seq<Line>, k: nat)
    requires k < |lines|
    requires ChainedOn(scan, lines, 0, k + 1) && ChainedOn(scan, lines, k + 1, |lines|)
    requires k + 1 < |lines| ==> lines[k].lineModeEnd == lines[k + 1].lineModeStart
    ensures ChainedOn(scan, lines, 0, |lines|)
  {
  }

  /** Updating a valid state yields a valid state. */
  lemma UpdateLineKeepsValid(scan: Scanner, state: State, text: string, lineNumber: int)
    requires Valid(scan, state.lines)
    requires 0 <= lineNumber < |state.lines|
    ensures UpdateLine(scan, state, text, lineNumber).Success?
    ensures Valid(scan, UpdateLine(scan, state, text, lineNumber).value.lines)
  {
    var line := state.lines[lineNumber];
    var edited := state.lines[lineNumber := line.(text := text)];
    assert ChainedOn(scan, edited, 0, lineNumber);
    assert ChainedOn(scan, edited, lineNumber + 1, |edited|);
    CascadeKeepsValid(scan, edited, lineNumber, line.lineModeStart);
  }

  /** Two valid line sequences with the same texts are the same lines. */
  lemma ValidUnique(scan: Scanner, a: seq<Line>, b: seq<Line>)
    requires Valid(scan, a) && Valid(scan, b)
    requires Texts(a) == Texts(b)
    ensures a == b
  {
    forall k | 0 <= k < |a|
      ensures a[k] == b[k]
    {
      ValidAgreeAt(scan, a, b, k);
    }
  }

  lemma {:induction false} ValidAgreeAt(scan: Scanner, a: seq<Line>, b: seq<Line>, k: nat)
    requires Valid(scan, a) && Valid(scan, b)
    requires Texts(a) == Texts(b)
    requires k < |a|
    ensures a[k] == b[k]
    decreases k
  {
    assert Relexed(scan, a[k]) && Relexed(scan, b[k]);
    assert a[k].text == Texts(a)[k] == b[k].text;
    if k > 0 {
      ValidAgreeAt(scan, a, b, k - 1);
    }
  }

  /** A state is valid exactly when it is what lexing its own texts from `Default` produces. */
  lemma ValidIffLexed(scan: Scanner, lines: seq<Line>)
    ensures Valid(scan, lines) <==> lines == LexLines(scan, Texts(lines), Default)
  {
    var lexed := LexLines(scan, Texts(lines), Default);
    if Valid(scan, lines) {
      ValidUnique(scan, lines, lexed);
    }
  }

  /**
    Incremental re-lexing agrees with lexing from scratch: on a valid state, updating one
    line gives the lines that lexing all the texts, with that one replaced, gives.
  */
  lemma UpdateLineIsFullRelex(scan: Scanner, state: State, text: string, lineNumber: int)
    requires Valid(scan, state.lines)
    requires 0 <= lineNumber < |state.lines|
    ensures UpdateLine(scan, state, text, lineNumber)
            == Success(State(LexLines(scan, Texts(state.lines)[lineNumber := text], Default), state.lineTerminator))
  {
    UpdateLineKeepsValid(scan, state, text, lineNumber);
    var updated := UpdateLine(scan, state, text, lineNumber).value.lines;
    var lexed := LexLines(scan, Texts(state.lines)[lineNumber := text], Default);
    assert Texts(updated) == Texts(state.lines)[lineNumber := text];
    ValidUnique(scan, updated, lexed);
  }

  /**
    When the edited line now ends in mode `m` and every following line, lexed from `m`,
    ends in `m` again, the update leaves every following line entered and left in `m`,
    with its text untouched. This is the shape of both the `Default` to `String` and the
    `String` to `Default` cascades.
  */
  lemma UpdateLineSettlesInMode(scan: Scanner, state: State, text: string, lineNumber: int, m: LineMode)
    requires Valid(scan, state.lines)
    requires 0 <= lineNumber < |state.lines|
    requires scan(state.lines[lineNumber].lineModeStart, text).modeEnd == m
    requires forall j :: lineNumber < j < |state.lines| ==> scan(m, state.lines[j].text).modeEnd == m
    ensures UpdateLine(scan, state, text, lineNumber).Success?
    ensures var lines := UpdateLine(scan, state, text, lineNumber).value.lines;
            forall j :: lineNumber < j < |lines| ==>
              lines[j].lineModeStart == m && lines[j].lineModeEnd == m && lines[j].text == state.lines[j].text
  {
    UpdateLineKeepsValid(scan, state, text, lineNumber);
    var lines := UpdateLine(scan, state, text, lineNumber).value.lines;
    forall j | lineNumber < j < |lines|
      ensures lines[j].lineModeStart == m && lines[j].lineModeEnd == m
    {
      SettledAt(scan, state.lines, lines, lineNumber, m, j);
    }
  }

  /** Rewriting a line of a valid state with the text it already has changes nothing. */
  lemma UpdateLineSameTextIsIdentity(scan: Scanner, state: State, lineNumber: int)
    requires Valid(scan, state.lines)
    requires 0 <= lineNumber < |state.lines|
    ensures UpdateLine(scan, state, state.lines[lineNumber].text, lineNumber) == Success(state)
  {
    UpdateLineIsFullRelex(scan, state, state.lines[lineNumber].text, lineNumber);
    assert Texts(state.lines)[lineNumber := state.lines[lineNumber].text] == Texts(state.lines);
    ValidIffLexed(scan, state.lines);
  }

  /** Applying the same update twice gives what applying it once gives. */
  lemma UpdateLineIdempotent(scan: Scanner, state: State, text: string, lineNumber: int)
    requires Valid(scan, state.lines)
    requires 0 <= lineNumber < |state.lines|
    ensures UpdateLine(scan, state, text, lineNumber).Success?
    ensures var once := UpdateLine(scan, state, text, lineNumber).value;
            UpdateLine(scan, once, text, lineNumber) == Success(once)
  {
    UpdateLineKeepsValid(scan, state, text, lineNumber);
    var once := UpdateLine(scan, state, text, lineNumber).value;
    UpdateLineSameTextIsIdentity(scan, once, lineNumber);
  }

  lemma {:induction false} SettledAt(scan: Scanner, before: seq<Line>, lines: seq<Line>, n: nat, m: LineMode, j: nat)
    requires Valid(scan, lines)
    requires |lines| == |before|
    requires n < j < |lines|
    requires lines[n].lineModeEnd == m
    requires forall k :: n < k < |lines| ==> lines[k].text == before[k].text
    requires forall k :: n < k < |before| ==> scan(m, before[k].text).modeEnd == m
    ensures lines[j].lineModeStart == m && lines[j].lineModeEnd == m
    decreases j
  {
    if j > n + 1 {
      SettledAt(scan, before, lines, n, m, j - 1);
    }
    assert Relexed(scan, lines[j]);
  }
}
