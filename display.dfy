/**
 * What the editor writes to the terminal, as abstract operations, and a
 * model of the terminal row that those operations draw on.
 */
module Display {
  import opened Chars

  datatype DisplayOp =
    | Put(c: char)       // one byte written at the terminal cursor
    | ClearToEol         // ESC [ K
    | Back(n: nat)       // "\b" (n = 1) or ESC [ n D
    | Forward(n: nat)    // ESC [ n C
    | Prompt             // the shell's name, printed on a fresh line

  function Puts(s: seq<char>): seq<DisplayOp> {
    if s == [] then [] else [Put(s[0])] + Puts(s[1..])
  }

  lemma {:induction false} PutsAppend(s: seq<char>, t: seq<char>)
    ensures Puts(s + t) == Puts(s) + Puts(t)
  {
    if s != [] {
      assert (s + t)[1..] == s[1..] + t;
      PutsAppend(s[1..], t);
    } else {
      assert s + t == t;
    }
  }

  /** Bytes that occupy one column of the terminal. */
  predicate Printable(c: char) {
    ' ' <= c <= '~'
  }

  /** The edited row right of the prompt, and the terminal cursor's column in it. */
  datatype Screen = Screen(row: seq<char>, col: nat) {
    predicate Valid() { col <= |row| }
  }

  /** Writing `t` over `row` from column `col` on. */
  function Overwrite(row: seq<char>, col: nat, t: seq<char>): seq<char>
    requires col <= |row|
  {
    row[..col] + t + (if col + |t| < |row| then row[col + |t|..] else [])
  }

  /** One operation on the terminal row. A newline or the prompt starts a fresh row. */
  function Render(scr: Screen, op: DisplayOp): (r: Screen)
    requires scr.Valid()
    ensures r.Valid()
  {
    match op
    case Put(c) =>
      if c == NEWLINE then Screen([], 0)
      else Screen(Overwrite(scr.row, scr.col, [c]), scr.col + 1)
    case ClearToEol => Screen(scr.row[..scr.col], scr.col)
    case Back(n) => Screen(scr.row, if n <= scr.col then scr.col - n else 0)
    case Forward(n) => Screen(scr.row, if scr.col + n <= |scr.row| then scr.col + n else |scr.row|)
    case Prompt => Screen([], 0)
  }

  function RenderAll(scr: Screen, ops: seq<DisplayOp>): (r: Screen)
    requires scr.Valid()
    ensures r.Valid()
    decreases |ops|
  {
    if ops == [] then scr else RenderAll(Render(scr, ops[0]), ops[1..])
  }

  lemma {:induction false} RenderAllAppend(scr: Screen, ops: seq<DisplayOp>, more: seq<DisplayOp>)
    requires scr.Valid()
    ensures RenderAll(scr, ops + more) == RenderAll(RenderAll(scr, ops), more)
    decreases |ops|
  {
    if ops != [] {
      assert (ops + more)[0] == ops[0];
      assert (ops + more)[1..] == ops[1..] + more;
      RenderAllAppend(Render(scr, ops[0]), ops[1..], more);
    } else {
      assert ops + more == more;
    }
  }

  /** Printing text overwrites the row from the cursor on and leaves the cursor after it. */
  lemma {:induction false} RenderPuts(scr: Screen, t: seq<char>)
    requires scr.Valid() && NEWLINE !in t
    ensures RenderAll(scr, Puts(t)) == Screen(Overwrite(scr.row, scr.col, t), scr.col + |t|)
    decreases |t|
  {
    if t != [] {
      var next := Render(scr, Put(t[0]));
      assert Puts(t)[0] == Put(t[0]) && Puts(t)[1..] == Puts(t[1..]);
      RenderPuts(next, t[1..]);
      var row, col := scr.row, scr.col;
      assert Overwrite(Overwrite(row, col, [t[0]]), col + 1, t[1..]) == Overwrite(row, col, t);
    }
  }
}
