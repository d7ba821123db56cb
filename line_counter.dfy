/** `count_lines` of the shell's `cloc` command: every line the file yields is blank,
    code or comment, decided by a three-state scanner that runs across lines.

    The file is given as the lines `fgets` hands back: each keeps its `'\n'`, and the
    last one may lack it. Reading past the end of a line gives the C terminator,
    written `At(line, i) == '\0'` here.

    The scanner is written once, with a switch `lineCommentEnds`. The C code runs it
    with the switch off: a `//` comment never ends, so every later line is a comment
    line. With the switch on, a `//` comment ends with its line, which is what the
    state's name promises; the `Corrected` lemmas are about that scanner. */
module LineCounter {
  import opened Wrappers
  import opened Tokens
  import opened FileFilters

  datatype State = Code | LineComment | BlockComment

  /** The three out-parameters `blanks`, `comments` and `code`. */
  datatype Counts = Counts(blanks: nat, comments: nat, code: nat)

  /** The counters together with the scanner state carried into the next line. */
  datatype Tally = Tally(counts: Counts, state: State)

  /** What scanning the rest of a line does: the state it ends in and how many
      comments it opened. */
  datatype Scan = Scan(state: State, openings: nat)

  const START := Tally(Counts(0, 0, 0), Code)

  /** The character at `i` of the NUL-terminated buffer holding `line`. */
  function At(line: string, i: nat): char
  {
    if i < |line| then line[i] else '\0'
  }

  /** A line is blank when only spaces and tabs come before its newline. */
  predicate IsBlank(line: string)
  {
    At(line, Leading(line)) == '\n'
  }

  /** The character loop of `count_lines` from position `i` in state `st`: in code,
      `//` and slash-star each open a comment and skip both characters; in a block
      comment, star-slash returns to code; the loop ends at the newline or the terminator. */
  function ScanLine(lineCommentEnds: bool, line: string, i: nat, st: State): (s: Scan)
    requires i <= |line|
    ensures lineCommentEnds ==> s.state != LineComment
    decreases |line| - i
  {
    var c := At(line, i);
    if c == '\0' || c == '\n' then
      Scan(if lineCommentEnds && st == LineComment then Code else st, 0)
    else
      match st
      case Code =>
        if c == '/' && At(line, i + 1) == '/' then
          var s := ScanLine(lineCommentEnds, line, i + 2, LineComment);
          Scan(s.state, s.openings + 1)
        else if c == '/' && At(line, i + 1) == '*' then
          var s := ScanLine(lineCommentEnds, line, i + 2, BlockComment);
          Scan(s.state, s.openings + 1)
        else
          ScanLine(lineCommentEnds, line, i + 1, Code)
      case LineComment =>
        ScanLine(lineCommentEnds, line, i + 1, LineComment)
      case BlockComment =>
        if c == '*' && At(line, i + 1) == '/' then ScanLine(lineCommentEnds, line, i + 2, Code)
        else ScanLine(lineCommentEnds, line, i + 1, BlockComment)
  }

  /** One iteration of the `fgets` loop: classify the line by the state it starts in,
      then scan it. */
  function LineStep(lineCommentEnds: bool, t: Tally, line: string): Tally
  {
    var i := Leading(line);
    var c := t.counts;
    var classified :=
      if At(line, i) == '\n' then c.(blanks := c.blanks + 1)
      else if t.state == Code then c.(code := c.code + 1)
      else c.(comments := c.comments + 1);
    var s := ScanLine(lineCommentEnds, line, i, t.state);
    Tally(classified.(comments := classified.comments + s.openings), s.state)
  }

  /** The counters and state after the given lines, starting from zero counters in
      code. */
  function CountAll(lineCommentEnds: bool, lines: seq<string>): Tally
    decreases |lines|
  {
    if lines == [] then START
    else LineStep(lineCommentEnds, CountAll(lineCommentEnds, lines[..|lines| - 1]), lines[|lines| - 1])
  }

  /** `count_lines(path, ext, &blanks, &comments, &code)`. `file` is `None` when the
      file cannot be opened. The counters are passed in and handed back, as the C
      out-parameters are. */
  method CountLines(path: string, ext: string, file: Option<seq<string>>, blanks0: int, comments0: int, code0: int)
    returns (r: int, blanks: int, comments: int, code: int)
    ensures r == (if HasExtension(path, ext) && file.Some? then 1 else 0)
    ensures r == 0 ==> blanks == blanks0 && comments == comments0 && code == code0
    ensures r == 1 ==> var c := CountAll(false, file.value).counts;
              blanks == c.blanks && comments == c.comments && code == c.code
  {
    blanks, comments, code := blanks0, comments0, code0;
    if !HasExtension(path, ext) {
      return 0, blanks, comments, code;
    }
    if file.None? {
      return 0, blanks, comments, code;
    }
    var lines := file.value;
    blanks, comments, code := 0, 0, 0;
    var state := Code;
    var n := 0;
    while n < |lines|
      invariant n <= |lines|
      invariant blanks >= 0 && comments >= 0 && code >= 0
      invariant CountAll(false, lines[..n]) == Tally(Counts(blanks, comments, code), state)
    {
      var line := lines[n];
      ghost var before := Tally(Counts(blanks, comments, code), state);
      var i := SkipBlanks(line);
      if At(line, i) == '\n' {
        blanks := blanks + 1;
      } else if state == Code {
        code := code + 1;
      } else {
        comments := comments + 1;
      }
      state, comments := ScanRest(line, i, state, comments);
      assert lines[..n + 1][..n] == lines[..n];
      assert CountAll(false, lines[..n + 1]) == LineStep(false, before, line);
      n := n + 1;
    }
    assert lines[..n] == lines;
    r := 1;
  }

  /** The loop that steps over the spaces and tabs at the start of a line. */
  method SkipBlanks(line: string) returns (i: nat)
    ensures i == Leading(line)
  {
    i := 0;
    while At(line, i) == ' ' || At(line, i) == '\t'
      invariant i <= Leading(line)
      decreases Leading(line) - i
    {
      i := i + 1;
    }
  }

  /** The character loop of `count_lines` over the rest of a line, as the C code runs
      it: it ends in the state the scanner ends in, having added one comment per
      comment it opened. */
  method ScanRest(line: string, i0: nat, state0: State, comments0: int) returns (state: State, comments: int)
    requires i0 <= |line|
    ensures state == ScanLine(false, line, i0, state0).state
    ensures comments == comments0 + ScanLine(false, line, i0, state0).openings
  {
    state, comments := state0, comments0;
    var i := i0;
    while At(line, i) != '\0' && At(line, i) != '\n'
      invariant i <= |line|
      invariant ScanLine(false, line, i, state).state == ScanLine(false, line, i0, state0).state
      invariant comments + ScanLine(false, line, i, state).openings
                == comments0 + ScanLine(false, line, i0, state0).openings
      decreases |line| - i
    {
      match state
      case Code =>
        if At(line, i) == '/' && At(line, i + 1) == '/' {
          state := LineComment;
          comments := comments + 1;
          i := i + 2;
        } else if At(line, i) == '/' && At(line, i + 1) == '*' {
          state := BlockComment;
          comments := comments + 1;
          i := i + 2;
        } else {
          i := i + 1;
        }
      case LineComment =>
        i := i + 1;
      case BlockComment =>
        if At(line, i) == '*' && At(line, i + 1) == '/' {
          state := Code;
          i := i + 2;
        } else {
          i := i + 1;
        }
    }
  }

  /** The number of blank lines, counted directly. */
  function BlankLines(lines: seq<string>): (k: nat)
    ensures k <= |lines|
  {
    if lines == [] then 0
    else BlankLines(lines[..|lines| - 1]) + (if IsBlank(lines[|lines| - 1]) then 1 else 0)
  }

  /** `blanks` is the number of blank lines, and every other line is counted once as
      code or as a comment: code and blanks never exceed the lines, and the three
      counters together cover them. */
  lemma {:induction false} EveryLineClassified(lineCommentEnds: bool, lines: seq<string>)
    ensures CountAll(lineCommentEnds, lines).counts.blanks == BlankLines(lines)
    ensures var c := CountAll(lineCommentEnds, lines).counts;
              c.blanks + c.code <= |lines| <= c.blanks + c.code + c.comments
    decreases |lines|
  {
    if lines != [] {
      EveryLineClassified(lineCommentEnds, lines[..|lines| - 1]);
    }
  }

  /** As written, a `//` comment swallows the rest of the line and every later line:
      scanning from the line-comment state stays there and opens nothing. */
  lemma {:induction false} LineCommentAbsorbs(line: string, i: nat)
    requires i <= |line|
    ensures ScanLine(false, line, i, LineComment) == Scan(LineComment, 0)
    decreases |line| - i
  {
    if At(line, i) != '\0' && At(line, i) != '\n' {
      LineCommentAbsorbs(line, i + 1);
    }
  }

  /** As written, once a file has reached a `//` comment no later line is code: the
      state stays LINE_COMMENT and the code counter stops. */
  lemma {:induction false} LineCommentNeverEnds(lines: seq<string>, k: nat)
    requires k <= |lines| && CountAll(false, lines[..k]).state == LineComment
    ensures CountAll(false, lines).state == LineComment
    ensures CountAll(false, lines).counts.code == CountAll(false, lines[..k]).counts.code
    decreases |lines|
  {
    if k < |lines| {
      var init := lines[..|lines| - 1];
      assert init[..k] == lines[..k];
      LineCommentNeverEnds(init, k);
      LineCommentAbsorbs(lines[|lines| - 1], Leading(lines[|lines| - 1]));
    } else {
      assert lines[..k] == lines;
    }
  }

  /** The discrepancy on a two-line file: a comment line, then a statement. As
      written the statement is counted as a comment; with the comment ending at its
      line it is code. */
  lemma CommentThenStatement()
    ensures CountAll(false, ["// c\n", "x;\n"]).counts == Counts(0, 2, 1)
    ensures CountAll(true, ["// c\n", "x;\n"]).counts == Counts(0, 1, 2)
  {
    var lines := ["// c\n", "x;\n"];
    assert lines[..1] == ["// c\n"] && lines[..1][..0] == [];
    assert Leading("// c\n") == 0 && Leading("x;\n") == 0;
    LineCommentAbsorbs("// c\n", 2);
    assert ScanLine(false, "// c\n", 0, Code) == Scan(LineComment, 1);
    LineCommentAbsorbs("x;\n", 0);
    assert ScanLine(true, "// c\n", 2, LineComment) == Scan(Code, 0) by {
      assert ScanLine(true, "// c\n", 5, LineComment) == Scan(Code, 0);
    }
    assert ScanLine(true, "x;\n", 0, Code) == Scan(Code, 0) by {
      assert ScanLine(true, "x;\n", 2, Code) == Scan(Code, 0);
    }
  }

  /** A line with no slash-star in it, scanned from code by the corrected scanner, ends in
      code and opens at most one comment. */
  lemma {:induction false} CorrectedLineWithoutBlockComment(line: string, i: nat, st: State)
    requires i <= |line| && st != BlockComment
    requires forall j :: 0 <= j < |line| - 1 ==> !(line[j] == '/' && line[j + 1] == '*')
    ensures ScanLine(true, line, i, st).state == Code
    decreases |line| - i
  {
    var c := At(line, i);
    if c != '\0' && c != '\n' {
      if st == Code && c == '/' && At(line, i + 1) == '/' {
        CorrectedLineWithoutBlockComment(line, i + 2, LineComment);
      } else {
        CorrectedLineWithoutBlockComment(line, i + 1, st);
      }
    }
  }

  /** With `//` comments ending at their line, a file without slash-star has every line
      start in code, so every line that is not blank is counted as code. */
  lemma {:induction false} CorrectedCountsCode(lines: seq<string>)
    requires forall k, j :: 0 <= k < |lines| && 0 <= j < |lines[k]| - 1 ==>
               !(lines[k][j] == '/' && lines[k][j + 1] == '*')
    ensures CountAll(true, lines).state == Code
    ensures CountAll(true, lines).counts.code == |lines| - BlankLines(lines)
    decreases |lines|
  {
    if lines != [] {
      var init := lines[..|lines| - 1];
      var last := lines[|lines| - 1];
      CorrectedCountsCode(init);
      CorrectedLineWithoutBlockComment(last, Leading(last), Code);
    }
  }
}
