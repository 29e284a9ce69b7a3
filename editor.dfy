/**
 * The read loop of `parse()` as the source runs it: a growable byte buffer
 * edited in place with `memmove`, a cursor and a length, and a capacity that
 * doubles when the line and its terminator would fill it.
 */
module Editor {
  import opened Chars
  import opened Keys
  import opened Display
  import opened LineEdit
  import Memory

  class LineEditor {
    const shell: Shell
    /** `inputString`; its length is the allocated capacity. */
    var data: array<char>
    /** `string_length` */
    var length: nat
    /** `cursor` */
    var cursor: nat

    /**
     * The cursor lies within the line, the line leaves room for its
     * terminator, and every byte from the terminator on is NUL.
     */
    ghost predicate Valid()
      reads this, data
    {
      && cursor <= length < data.Length
      && forall k :: length <= k < data.Length ==> data[k] == NUL
    }

    ghost function Line(): EditLine
      reads this, data
      requires Valid()
    {
      EditLine(data[..length], cursor)
    }

    /** The buffer as `parse()` allocates it: STR_BUFFER bytes, cleared. */
    constructor (shell: Shell)
      ensures Valid() && fresh(data)
      ensures this.shell == shell && data.Length == STR_BUFFER
      ensures Line() == EditLine([], 0)
    {
      this.shell := shell;
      data := new char[STR_BUFFER](_ => NUL);
      length, cursor := 0, 0;
    }

    /**
     * The check at the top of the read loop (`realloc_buffer`): when the
     * line and its terminator fill the buffer, the capacity doubles, so that
     * one more byte and its terminator always fit.
     */
    method Reserve()
      requires Valid()
      modifies this
      ensures Valid() && Line() == old(Line())
      ensures data.Length ==
        if old(length) + 1 >= old(data.Length) then 2 * old(data.Length) else old(data.Length)
      ensures length + 1 < data.Length
      ensures data == old(data) || fresh(data)
    {
      if length + 1 >= data.Length {
        ghost var before := data[..];
        data := Memory.Grow(data, NUL);
        assert data[..length] == before[..length];
      }
    }

    /** One pass of the loop body for one key, editing the buffer in place. */
    method Press(key: Key) returns (ops: seq<DisplayOp>, status: Status)
      requires Valid() && length + 1 < data.Length
      requires key == CtrlC ==> shell == MyShell
      modifies this`length, this`cursor, data
      ensures Valid()
      ensures Step(Line(), ops, status) == Transition(shell, old(Line()), key)
    {
      match key {
        case Newline =>
          if data[0] == NUL {
            ops, status := [Put(NEWLINE), Prompt], Editing;
          } else {
            data[length] := NUL;
            ops, status := [Put(NEWLINE)], Entered;
          }
        case CtrlC =>
          ops, status := [Put('^'), Put('C'), Put(NEWLINE)], Interrupted;
        case Right =>
          ops, status := [], Editing;
          if cursor < length {
            ops := [Forward(1)];
            cursor := cursor + 1;
          }
        case Left =>
          ops, status := [], Editing;
          if cursor > 0 {
            ops := [Back(1)];
            cursor := cursor - 1;
          }
        case Backspace =>
          ops, status := Erase();
        case Char(c) =>
          ops, status := Type(c);
        case _ =>
          ops, status := [], Editing;
      }
    }

    /** A printable key: stored at the cursor, and the rest of the line reprinted after it. */
    method Type(c: char) returns (ops: seq<DisplayOp>, status: Status)
      requires Valid() && length + 1 < data.Length
      modifies this`length, this`cursor, data
      ensures Valid()
      ensures Step(Line(), ops, status) == Transition(shell, old(Line()), Char(c))
    {
      ghost var before := Line();
      status := Editing;
      if cursor < length {
        InsertAtCursor(c);
        TakeUntilNulStops(data[cursor..length], data[length..]);
        assert data[cursor..] == data[cursor..length] + data[length..];
        ops := [Put(c), ClearToEol] + Puts(TakeUntilNul(data[cursor..])) + [Back(length - cursor)];
      } else {
        ops := [Put(c)];
        data[cursor] := c;
        cursor := cursor + 1;
        length := length + 1;
        assert data[..length] == before.text + [c];
      }
    }

    /** Backspace: the byte before the cursor is removed and the tail reprinted one column left. */
    method Erase() returns (ops: seq<DisplayOp>, status: Status)
      requires Valid()
      modifies this`length, this`cursor, data
      ensures Valid()
      ensures Step(Line(), ops, status) == Transition(shell, old(Line()), Backspace)
    {
      ops, status := [], Editing;
      if cursor > 0 {
        DeleteBeforeCursor();
        var tail := data[cursor..length];
        var echo := if shell == JBash then TakeUntilNul(tail) else tail;
        ops := [Back(1)] + Puts(echo) + [Put(' '), Back(length - cursor + 1)];
      }
    }

    /** The mid-line insertion: shift the tail and its terminator right by one, then store the byte. */
    method InsertAtCursor(c: char)
      requires Valid() && length + 1 < data.Length && cursor < length
      modifies this`length, this`cursor, data
      ensures Valid()
      ensures length == old(length) + 1 && cursor == old(cursor) + 1
      ensures Line().text == old(Line().text[..cursor]) + [c] + old(Line().text[cursor..])
    {
      ghost var before := data[..];
      var p, n := cursor, length;
      Memory.MemMove(data, p + 1, p, n - p + 1);
      ghost var moved := data[..];
      data[p] := c;
      length, cursor := n + 1, p + 1;
      ShiftedRight(before, moved, data[..], p, n, c);
    }

    /** Backspace in place: shift the tail and its terminator left by one over the byte before the cursor. */
    method DeleteBeforeCursor()
      requires Valid() && cursor > 0
      modifies this`length, this`cursor, data
      ensures Valid()
      ensures length == old(length) - 1 && cursor == old(cursor) - 1
      ensures Line().text == old(Line().text[..cursor - 1]) + old(Line().text[cursor..])
    {
      ghost var before := data[..];
      var p, n := cursor, length;
      Memory.MemMove(data, p - 1, p, n - p + 1);
      length, cursor := n - 1, p - 1;
      ShiftedLeft(before, data[..], p, n);
    }

    /**
     * One pass of the read loop on a stream that holds a key: the capacity
     * check, the key, and its effect, which is one turn of `Run`.
     */
    method Advance(ghost l: EditLine, rest: seq<char>) returns (ops: seq<DisplayOp>, status: Status, width: nat)
      requires Valid() && l == Line() && Decode(shell, rest).Some?
      modifies this, data
      ensures Valid() && (data == old(data) || fresh(data))
      ensures 1 <= width <= |rest|
      ensures status != Editing ==> Run(shell, l, rest) == Session(Line(), ops, status, width)
      ensures status == Editing ==> Run(shell, l, rest) == Then(ops, width, Run(shell, Line(), rest[width..]))
    {
      RunStep(shell, l, rest);
      Reserve();
      var d := Decode(shell, rest).value;
      ops, status := Press(d.key);
      width := d.width;
    }

    /**
     * The read loop: for each byte the capacity check, then the key it
     * starts. Ends on an entered line, on Ctrl-C (MyShell), or when a read
     * fails, and agrees with `Run`. `rest` is what is still unread.
     */
    method ReadLine(input: seq<char>) returns (ops: seq<DisplayOp>, status: Status, consumed: nat)
      requires Valid()
      modifies this, data
      ensures Valid() && (data == old(data) || fresh(data))
      ensures Session(Line(), ops, status, consumed) == Run(shell, old(Line()), input)
    {
      ghost var goal := Run(shell, Line(), input);
      var rest := input;
      ops, status, consumed := [], Editing, 0;
      assert goal == Then(ops, consumed, goal);
      while status == Editing
        invariant Valid() && (data == old(data) || fresh(data))
        invariant status == Editing ==> goal == Then(ops, consumed, Run(shell, Line(), rest))
        invariant status != Editing ==> goal == Session(Line(), ops, status, consumed)
        decreases |rest|, if status == Editing then 1 else 0
      {
        if Decode(shell, rest).None? {
          if rest != [] {
            // an escape byte was read: the capacity check runs before the reads that fail
            Reserve();
          }
          EndRun(shell, Line(), rest, ops, consumed);
          status, consumed := InputEnded, consumed + |rest|;
        } else {
          ghost var l := Line();
          var more, width;
          more, status, width := Advance(l, rest);
          if status == Editing {
            ThenThen(ops, consumed, more, width, Run(shell, Line(), rest[width..]));
          }
          ops, consumed, rest := ops + more, consumed + width, rest[width..];
        }
      }
    }
  }

  /** A session that follows `ops` already written and `consumed` bytes already read. */
  function Then(ops: seq<DisplayOp>, consumed: nat, r: Session): Session {
    Session(r.line, ops + r.ops, r.status, consumed + r.consumed)
  }

  /** A failed read: the session ends with the output so far and the line as it is. */
  lemma EndRun(shell: Shell, l: EditLine, rest: seq<char>, ops: seq<DisplayOp>, consumed: nat)
    requires l.Valid() && Decode(shell, rest).None?
    ensures Then(ops, consumed, Run(shell, l, rest)) == Session(l, ops, InputEnded, consumed + |rest|)
  {
    assert ops + [] == ops;
  }

  /** Following two stretches of output in turn is following their concatenation. */
  lemma ThenThen(ops: seq<DisplayOp>, consumed: nat, more: seq<DisplayOp>, width: nat, r: Session)
    ensures Then(ops, consumed, Then(more, width, r)) == Then(ops + more, consumed + width, r)
  {
    assert ops + (more + r.ops) == ops + more + r.ops;
  }

  /** One turn of `Run`: the key at the head of the stream, then the rest. */
  lemma RunStep(shell: Shell, l: EditLine, input: seq<char>)
    requires l.Valid() && Decode(shell, input).Some?
    ensures var d := Decode(shell, input).value;
      var st := Transition(shell, l, d.key);
      Run(shell, l, input) ==
        if st.status == Editing then Then(st.ops, d.width, Run(shell, st.line, input[d.width..]))
        else Session(st.line, st.ops, st.status, d.width)
  {
  }

  /** The buffer after `memmove` one to the right from `p` and a store at `p`. */
  lemma ShiftedRight(before: seq<char>, moved: seq<char>, after: seq<char>, p: nat, n: nat, c: char)
    requires p < n && n + 1 < |before| == |moved|
    requires forall k :: n <= k < |before| ==> before[k] == NUL
    requires moved == Memory.Moved(before, p + 1, p, n - p + 1)
    requires after == moved[p := c]
    ensures after[..n + 1] == before[..p] + [c] + before[p..n]
    ensures forall k :: n + 1 <= k < |after| ==> after[k] == NUL
  {
    var expected := before[..p] + [c] + before[p..n];
    forall k | 0 <= k < n + 1
      ensures after[k] == expected[k]
    {
      if k < p {
        assert after[k] == before[k];
        assert expected[k] == before[k];
      } else if k == p {
        assert expected[k] == c;
      } else {
        assert after[k] == before[k - 1] && expected[k] == before[p..n][k - p - 1];
      }
    }
    assert after[..n + 1] == expected;
    forall k | n + 1 <= k < |after|
      ensures after[k] == NUL
    {
      if k < n + 2 {
        assert after[k] == before[k - 1];
      } else {
        assert after[k] == before[k];
      }
    }
  }

  /** The buffer after `memmove` one to the left onto `p - 1`. */
  lemma ShiftedLeft(before: seq<char>, after: seq<char>, p: nat, n: nat)
    requires 0 < p <= n < |before|
    requires forall k :: n <= k < |before| ==> before[k] == NUL
    requires after == Memory.Moved(before, p - 1, p, n - p + 1)
    ensures after[..n - 1] == before[..p - 1] + before[p..n]
    ensures forall k :: n - 1 <= k < |after| ==> after[k] == NUL
  {
    var expected := before[..p - 1] + before[p..n];
    forall k | 0 <= k < n - 1
      ensures after[k] == expected[k]
    {
      if k < p - 1 {
        assert after[k] == before[k];
        assert expected[k] == before[k];
      } else {
        assert after[k] == before[k + 1] && expected[k] == before[p..n][k - p + 1];
      }
    }
    assert after[..n - 1] == expected;
    forall k | n - 1 <= k < |after|
      ensures after[k] == NUL
    {
      if k < n {
        assert after[k] == before[k + 1];
      } else {
        assert after[k] == before[k];
      }
    }
  }
}
