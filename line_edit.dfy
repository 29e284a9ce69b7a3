/**
 * The line editor of `parse()` as a pure state machine: one key takes the
 * edited line (its bytes and the cursor) to a new line, the terminal
 * operations that redraw it, and whether reading goes on.
 */
module LineEdit {
  import opened Chars
  import opened Keys
  import opened Display

  /** The bytes typed so far (`string_length` of them) and the cursor. */
  datatype EditLine = EditLine(text: seq<char>, cursor: nat) {
    predicate Valid() {
      cursor <= |text|
    }
  }

  /**
   * Editing: the read loop goes on. Entered: a newline finalised the line.
   * Interrupted: Ctrl-C ended the program (MyShell, `exit(1)`).
   * InputEnded: a read failed, which ends the loop with the line as it is.
   */
  datatype Status = Editing | Entered | Interrupted | InputEnded

  datatype Step = Step(line: EditLine, ops: seq<DisplayOp>, status: Status)

  /**
   * The source's empty-line test `!inputString[0]` reads the first byte of
   * the buffer. In this model the byte after the line is always NUL (cells
   * added by `realloc_buffer` are taken to be NUL, see `Memory.Grow`), so the
   * test holds for the empty line, and also for a line whose first byte is a
   * typed NUL.
   */
  predicate Blank(text: seq<char>) {
    text == [] || text[0] == NUL
  }

  /**
   * How backspace reprints the bytes right of the cursor: JBash with
   * `%.*s`, which stops at a NUL byte; MyShell one `%c` per byte.
   */
  function Echo(shell: Shell, tail: seq<char>): seq<char> {
    match shell
    case JBash => TakeUntilNul(tail)
    case MyShell => tail
  }

  /** One pass of the read loop's body, for one key. */
  function Transition(shell: Shell, l: EditLine, key: Key): (r: Step)
    requires l.Valid()
    ensures r.line.Valid()
    ensures r.status != Editing ==> r.line == l
    ensures r.status != InputEnded
    ensures r.status == Entered <==> key == Newline && !Blank(l.text)
    ensures r.status == Interrupted <==> key == CtrlC
    ensures |r.line.text| == |l.text| + (if key.Char? then 1 else if key == Backspace && l.cursor > 0 then -1 else 0)
  {
    var text, cursor := l.text, l.cursor;
    match key
    case Newline =>
      if Blank(text) then Step(l, [Put(NEWLINE), Prompt], Editing)
      else Step(l, [Put(NEWLINE)], Entered)
    case CtrlC =>
      Step(l, [Put('^'), Put('C'), Put(NEWLINE)], Interrupted)
    case Right =>
      if cursor < |text| then Step(EditLine(text, cursor + 1), [Forward(1)], Editing)
      else Step(l, [], Editing)
    case Left =>
      if cursor > 0 then Step(EditLine(text, cursor - 1), [Back(1)], Editing)
      else Step(l, [], Editing)
    case Backspace =>
      if cursor == 0 then Step(l, [], Editing)
      else
        var tail := text[cursor..];
        Step(EditLine(text[..cursor - 1] + tail, cursor - 1),
             [Back(1)] + Puts(Echo(shell, tail)) + [Put(' '), Back(|tail| + 1)],
             Editing)
    case Char(c) =>
      if cursor < |text| then
        var tail := text[cursor..];
        Step(EditLine(text[..cursor] + [c] + tail, cursor + 1),
             [Put(c), ClearToEol] + Puts(TakeUntilNul(tail)) + [Back(|tail|)],
             Editing)
      else
        Step(EditLine(text + [c], cursor + 1), [Put(c)], Editing)
    case _ =>
      Step(l, [], Editing)
  }

  /** What one call of `parse()` does with the byte stream before tokenizing. */
  datatype Session = Session(line: EditLine, ops: seq<DisplayOp>, status: Status, consumed: nat)

  /** The read loop: keys are decoded and applied until the line is entered, Ctrl-C, or a failed read. */
  function Run(shell: Shell, l: EditLine, input: seq<char>): (r: Session)
    requires l.Valid()
    ensures r.line.Valid() && r.status != Editing && r.consumed <= |input|
    ensures r.status == InputEnded ==> r.consumed == |input|
    ensures r.status == Entered ==> 0 < r.consumed && input[r.consumed - 1] == NEWLINE && !Blank(r.line.text)
    ensures r.status == Interrupted ==> shell == MyShell && 0 < r.consumed && input[r.consumed - 1] == CTRL_C
    decreases |input|
  {
    match Decode(shell, input)
    case None =>
      Session(l, [], InputEnded, |input|)
    case Some(d) =>
      var st := Transition(shell, l, d.key);
      if st.status == Editing then
        var rest := Run(shell, st.line, input[d.width..]);
        Session(rest.line, st.ops + rest.ops, rest.status, d.width + rest.consumed)
      else
        Session(st.line, st.ops, st.status, d.width)
  }

  // ---------------------------------------------------------------------
  // Editing laws

  /** An insertion puts the byte just left of the new cursor and keeps the rest of the line around it. */
  lemma InsertLaw(shell: Shell, l: EditLine, c: char)
    requires l.Valid()
    ensures var r := Transition(shell, l, Char(c)).line;
      && r.cursor == l.cursor + 1
      && r.text[..l.cursor] == l.text[..l.cursor]
      && r.text[l.cursor] == c
      && r.text[r.cursor..] == l.text[l.cursor..]
  {
  }

  /** Backspace removes the byte left of the cursor and keeps the rest of the line around it. */
  lemma BackspaceLaw(shell: Shell, l: EditLine)
    requires l.Valid() && l.cursor > 0
    ensures var r := Transition(shell, l, Backspace).line;
      && r.cursor == l.cursor - 1
      && r.text[..r.cursor] == l.text[..l.cursor - 1]
      && r.text[r.cursor..] == l.text[l.cursor..]
  {
  }

  /** After an edit in mid-line the terminal cursor is moved back over exactly the bytes right of the cursor
      (and, for backspace, the blank that erased the last column). The count is never 0, which ECMA-48
      would read as 1. */
  lemma MoveBackCount(shell: Shell, l: EditLine, key: Key)
    requires l.Valid()
    requires (key.Char? && l.cursor < |l.text|) || (key == Backspace && l.cursor > 0)
    ensures var r := Transition(shell, l, key);
      var blank := if key == Backspace then 1 else 0;
      && r.ops != []
      && r.ops[|r.ops| - 1] == Back(|r.line.text| - r.line.cursor + blank)
      && |r.line.text| - r.line.cursor + blank > 0
  {
  }

  /** Typing a byte and then backspace gives back the line and the cursor. */
  lemma {:induction false} InsertThenBackspace(shell: Shell, l: EditLine, c: char)
    requires l.Valid()
    ensures Transition(shell, Transition(shell, l, Char(c)).line, Backspace).line == l
  {
    var mid := Transition(shell, l, Char(c)).line;
    var text, p := l.text, l.cursor;
    assert mid.text == text[..p] + [c] + text[p..];
    assert mid.text[..p] == text[..p];
    assert mid.text[p + 1..] == text[p..];
    assert text[..p] + text[p..] == text;
  }

  /** Left then right arrow from a cursor that is not at the start restores the cursor and the line. */
  lemma LeftThenRight(shell: Shell, l: EditLine)
    requires l.Valid() && l.cursor > 0
    ensures Transition(shell, Transition(shell, l, Left).line, Right).line == l
  {
  }

  /** The arrows inside the line move the cursor one byte, keep the text, and move the terminal cursor with it. */
  lemma ArrowsMove(shell: Shell, l: EditLine)
    requires l.Valid()
    ensures l.cursor > 0 ==>
      Transition(shell, l, Left) == Step(EditLine(l.text, l.cursor - 1), [Back(1)], Editing)
    ensures l.cursor < |l.text| ==>
      Transition(shell, l, Right) == Step(EditLine(l.text, l.cursor + 1), [Forward(1)], Editing)
  {
  }

  /** Backspace and then retyping the erased byte gives back the line and the cursor. */
  lemma {:induction false} BackspaceThenRetype(shell: Shell, l: EditLine)
    requires l.Valid() && l.cursor > 0
    ensures Transition(shell, Transition(shell, l, Backspace).line, Char(l.text[l.cursor - 1])).line == l
  {
    var text, p := l.text, l.cursor;
    var mid := Transition(shell, l, Backspace).line;
    assert mid.text == text[..p - 1] + text[p..];
    assert mid.text[..p - 1] == text[..p - 1];
    assert mid.text[p - 1..] == text[p..];
    assert text[..p - 1] + [text[p - 1]] + text[p..] == text;
  }

  /** Keys that change nothing and draw nothing: backspace at the start of the line, tab, up, down, an
      unknown escape sequence, and the arrows at the ends of the line. */
  lemma IgnoredKeys(shell: Shell, l: EditLine, key: Key)
    requires l.Valid()
    requires || key == Tab || key == Up || key == Down || key.OtherEscape?
             || (key == Backspace && l.cursor == 0)
             || (key == Left && l.cursor == 0)
             || (key == Right && l.cursor == |l.text|)
    ensures Transition(shell, l, key) == Step(l, [], Editing)
  {
  }

  /** A newline finalises the line unless it is blank; a blank line only gets a fresh prompt. */
  lemma NewlineFinalisesNonBlank(shell: Shell, l: EditLine)
    requires l.Valid()
    ensures Blank(l.text) ==> Transition(shell, l, Newline) == Step(l, [Put(NEWLINE), Prompt], Editing)
    ensures !Blank(l.text) ==> Transition(shell, l, Newline) == Step(l, [Put(NEWLINE)], Entered)
  {
  }

  /** In MyShell byte 0x03 never enters the buffer: it ends the program where it is read. */
  lemma {:induction false} CtrlCNeverBuffered(l: EditLine, input: seq<char>)
    requires l.Valid() && CTRL_C !in l.text
    ensures CTRL_C !in Run(MyShell, l, input).line.text
    decreases |input|
  {
    match Decode(MyShell, input)
    case None =>
    case Some(d) =>
      var st := Transition(MyShell, l, d.key);
      assert CTRL_C !in st.line.text by {
        match d.key
        case Char(c) =>
          assert c != CTRL_C;
          if l.cursor < |l.text| {
            assert st.line.text == l.text[..l.cursor] + [c] + l.text[l.cursor..];
          } else {
            assert st.line.text == l.text + [c];
          }
        case Backspace =>
          if l.cursor > 0 {
            assert st.line.text == l.text[..l.cursor - 1] + l.text[l.cursor..];
          }
        case _ =>
      }
      if st.status == Editing {
        CtrlCNeverBuffered(st.line, input[d.width..]);
      }
  }

  /** In MyShell a 0x03 at the head of the stream ends the program with the line untouched. */
  lemma CtrlCInterrupts(l: EditLine, rest: seq<char>)
    requires l.Valid()
    ensures Run(MyShell, l, [CTRL_C] + rest) == Session(l, [Put('^'), Put('C'), Put(NEWLINE)], Interrupted, 1)
  {
    assert ([CTRL_C] + rest)[0] == CTRL_C;
  }

  // ---------------------------------------------------------------------
  // The terminal row mirrors the line

  /** The terminal row shows the line, followed only by blanks, with the terminal cursor at the cursor. */
  predicate Shows(scr: Screen, l: EditLine) {
    && scr.col == l.cursor
    && |l.text| <= |scr.row|
    && scr.row[..|l.text|] == l.text
    && forall j :: |l.text| <= j < |scr.row| ==> scr.row[j] == ' '
  }

  predicate PrintableText(s: seq<char>) {
    forall j :: 0 <= j < |s| ==> Printable(s[j])
  }

  lemma PrintableHasNoNul(s: seq<char>)
    requires PrintableText(s)
    ensures NUL !in s && NEWLINE !in s
  {
  }

  /** A mid-line insertion on a printable line: what JBash emits, and the new line. */
  lemma InsertMidStep(l: EditLine, c: char)
    requires l.Valid() && PrintableText(l.text) && l.cursor < |l.text|
    ensures var r, tail := Transition(JBash, l, Char(c)), l.text[l.cursor..];
      && r.ops == [Put(c), ClearToEol] + Puts(tail) + [Back(|tail|)]
      && r.line == EditLine(l.text[..l.cursor] + [c] + tail, l.cursor + 1)
  {
    var tail := l.text[l.cursor..];
    assert PrintableText(tail);
    PrintableHasNoNul(tail);
    TakeUntilNulWhole(tail);
  }

  /** Drawing a mid-line insertion: the byte, a cleared rest of row, the tail, and the cursor moved back. */
  lemma {:induction false} RenderInsertMid(scr: Screen, text: seq<char>, p: nat, c: char)
    requires scr.Valid() && p < |text| && Shows(scr, EditLine(text, p))
    requires PrintableText(text) && Printable(c)
    ensures var tail := text[p..];
      Shows(RenderAll(scr, [Put(c), ClearToEol] + Puts(tail) + [Back(|tail|)]), EditLine(text[..p] + [c] + tail, p + 1))
  {
    var tail := text[p..];
    assert PrintableText(tail);
    PrintableHasNoNul(tail);
    var s1 := Render(scr, Put(c));
    var s2 := Render(s1, ClearToEol);
    assert s2 == Screen(text[..p] + [c], p + 1);
    RenderPuts(s2, tail);
    var s3 := RenderAll(s2, Puts(tail));
    assert s3 == Screen(text[..p] + [c] + tail, |text| + 1);
    RenderAllAppend(scr, [Put(c), ClearToEol], Puts(tail));
    RenderAllAppend(scr, [Put(c), ClearToEol] + Puts(tail), [Back(|tail|)]);
    assert RenderAll(scr, [Put(c), ClearToEol] + Puts(tail) + [Back(|tail|)]) == Screen(s3.row, p + 1);
  }

  lemma MirrorInsertMid(scr: Screen, l: EditLine, c: char)
    requires l.Valid() && scr.Valid() && Shows(scr, l) && PrintableText(l.text) && Printable(c)
    requires l.cursor < |l.text|
    ensures var r := Transition(JBash, l, Char(c)); Shows(RenderAll(scr, r.ops), r.line)
  {
    InsertMidStep(l, c);
    RenderInsertMid(scr, l.text, l.cursor, c);
  }

  lemma {:induction false} MirrorInsertEnd(shell: Shell, scr: Screen, l: EditLine, c: char)
    requires l.Valid() && scr.Valid() && Shows(scr, l) && Printable(c)
    requires l.cursor == |l.text|
    ensures var r := Transition(shell, l, Char(c)); Shows(RenderAll(scr, r.ops), r.line)
  {
    var r := Transition(shell, l, Char(c));
    assert r.ops == [Put(c)];
    var s1 := Render(scr, Put(c));
    assert RenderAll(scr, r.ops) == RenderAll(s1, []);
    assert s1.row[..|l.text| + 1] == l.text + [c];
  }

  /** The row after backspace redraws: the tail moved one column left, then a blank. */
  lemma BackspaceRow(row: seq<char>, text: seq<char>, p: nat)
    requires 0 < p <= |text| <= |row| && row[..|text|] == text
    requires forall j :: |text| <= j < |row| ==> row[j] == ' '
    ensures var tail := text[p..];
      var s2 := Overwrite(row, p - 1, tail);
      && |s2| == |row|
      && Overwrite(s2, |text| - 1, [' ']) == text[..p - 1] + tail + [' '] + row[|text|..]
  {
    var tail := text[p..];
    var s2 := Overwrite(row, p - 1, tail);
    assert s2 == row[..p - 1] + tail + row[|text| - 1..];
    assert s2[..|text| - 1] == text[..p - 1] + tail;
    assert s2[|text|..] == row[|text|..];
  }

  /** Backspace on a printable line: what either revision emits, and the new line. */
  lemma BackspaceStep(shell: Shell, l: EditLine)
    requires l.Valid() && PrintableText(l.text) && l.cursor > 0
    ensures var r, tail := Transition(shell, l, Backspace), l.text[l.cursor..];
      && r.ops == [Back(1)] + Puts(tail) + [Put(' '), Back(|tail| + 1)]
      && r.line == EditLine(l.text[..l.cursor - 1] + tail, l.cursor - 1)
  {
    var tail := l.text[l.cursor..];
    assert PrintableText(tail);
    TakeUntilNulWhole(tail);
    assert Echo(shell, tail) == tail;
  }

  /** Drawing a backspace, first half: one column left, then the tail reprinted from there. */
  lemma RenderBackTail(scr: Screen, text: seq<char>, p: nat)
    requires scr.Valid() && 0 < p <= |text| && Shows(scr, EditLine(text, p)) && PrintableText(text)
    ensures RenderAll(scr, [Back(1)] + Puts(text[p..])) == Screen(Overwrite(scr.row, p - 1, text[p..]), |text| - 1)
  {
    var tail := text[p..];
    assert PrintableText(tail);
    var s1 := Render(scr, Back(1));
    assert s1 == Screen(scr.row, p - 1);
    RenderPuts(s1, tail);
    RenderAllAppend(scr, [Back(1)], Puts(tail));
    assert RenderAll(scr, [Back(1)]) == s1;
  }

  /** Drawing a backspace, second half: a blank over the column the line gave up, and back to the cursor. */
  lemma RenderBlankBack(row: seq<char>, text: seq<char>, p: nat)
    requires 0 < p <= |text| <= |row| && row[..|text|] == text
    requires forall j :: |text| <= j < |row| ==> row[j] == ' '
    ensures var tail := text[p..];
      RenderAll(Screen(Overwrite(row, p - 1, tail), |text| - 1), [Put(' '), Back(|tail| + 1)])
        == Screen(text[..p - 1] + tail + [' '] + row[|text|..], p - 1)
  {
    var tail := text[p..];
    BackspaceRow(row, text, p);
    var row3 := text[..p - 1] + tail + [' '] + row[|text|..];
    var s2 := Screen(Overwrite(row, p - 1, tail), |text| - 1);
    var s3 := Render(s2, Put(' '));
    assert s3 == Screen(row3, |text|);
    assert [Put(' '), Back(|tail| + 1)][1..] == [Back(|tail| + 1)];
    assert RenderAll(s3, [Back(|tail| + 1)]) == RenderAll(Screen(row3, p - 1), []);
  }

  /** Drawing a backspace: the row then shows the shortened line. */
  lemma {:induction false} RenderBackspace(scr: Screen, text: seq<char>, p: nat)
    requires scr.Valid() && 0 < p <= |text| && Shows(scr, EditLine(text, p)) && PrintableText(text)
    ensures var tail := text[p..];
      Shows(RenderAll(scr, [Back(1)] + Puts(tail) + [Put(' '), Back(|tail| + 1)]), EditLine(text[..p - 1] + tail, p - 1))
  {
    var row, tail := scr.row, text[p..];
    RenderBackTail(scr, text, p);
    RenderBlankBack(row, text, p);
    RenderAllAppend(scr, [Back(1)] + Puts(tail), [Put(' '), Back(|tail| + 1)]);
    var row3 := text[..p - 1] + tail + [' '] + row[|text|..];
    assert row3[..|text| - 1] == text[..p - 1] + tail;
  }

  lemma MirrorBackspace(shell: Shell, scr: Screen, l: EditLine)
    requires l.Valid() && scr.Valid() && Shows(scr, l) && PrintableText(l.text)
    requires l.cursor > 0
    ensures var r := Transition(shell, l, Backspace); Shows(RenderAll(scr, r.ops), r.line)
  {
    BackspaceStep(shell, l);
    RenderBackspace(scr, l.text, l.cursor);
  }

  /**
   * The operations each key emits keep the terminal row in step with the
   * line: if the row showed the line before the key, it shows the new line
   * after it. Bytes are taken to be printable, each taking one column.
   */
  lemma DisplayMirrorsLine(shell: Shell, scr: Screen, l: EditLine, key: Key)
    requires l.Valid() && scr.Valid() && Shows(scr, l) && PrintableText(l.text)
    requires key.Char? ==> Printable(key.c)
    requires key != CtrlC && (key == Newline ==> Blank(l.text))
    ensures var r := Transition(shell, l, key); Shows(RenderAll(scr, r.ops), r.line)
  {
    match key
    case Char(c) =>
      if l.cursor < |l.text| {
        MirrorInsertMid(scr, l, c);
        assert Transition(shell, l, key) == Transition(JBash, l, key);
      } else {
        MirrorInsertEnd(shell, scr, l, c);
      }
    case Backspace =>
      if l.cursor > 0 {
        MirrorBackspace(shell, scr, l);
      }
    case Newline =>
      var ops := [Put(NEWLINE), Prompt];
      assert Transition(shell, l, key).ops == ops;
      assert RenderAll(scr, ops) == RenderAll(Screen([], 0), [Prompt]) == Screen([], 0);
    case _ =>
  }
}
