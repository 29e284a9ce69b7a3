/**
 * Decoding of the raw byte stream into keystrokes, as the read loop of
 * `parse()` does it: one byte selects the branch, and the escape byte pulls
 * two more bytes (ESC [ A/B/C/D are the ECMA-48 cursor keys).
 */
module Keys {
  import opened Chars

  datatype Key =
    | Char(c: char)                          // any byte no other branch takes: inserted at the cursor
    | Newline
    | Backspace                              // DEL (127) or '\b'
    | Tab
    | CtrlC                                  // byte 0x03, a key of its own in MyShell only
    | Up | Down | Right | Left               // ESC [ A, ESC [ B, ESC [ C, ESC [ D
    | OtherEscape(first: char, second: char) // any other ESC x y

  /** A key and the number of bytes it took from the stream. */
  datatype Decoded = Decoded(key: Key, width: nat)

  /** Bytes that select a branch of the read loop other than insertion. */
  predicate IsControl(shell: Shell, c: char) {
    c == NEWLINE || c == TAB || c == ESC || c == DEL || c == BACKSPACE
    || (shell == MyShell && c == CTRL_C)
  }

  function EscapeKey(first: char, second: char): Key {
    if first != '[' then OtherEscape(first, second)
    else if second == 'A' then Up
    else if second == 'B' then Down
    else if second == 'C' then Right
    else if second == 'D' then Left
    else OtherEscape(first, second)
  }

  /**
   * The next key at the head of the stream. None when the stream is
   * exhausted, or when an escape byte is not followed by two more bytes: in
   * both cases the source leaves its read loop.
   */
  function Decode(shell: Shell, input: seq<char>): (r: Option<Decoded>)
    ensures r.None? <==> input == [] || (input[0] == ESC && |input| < 3)
    ensures r.Some? ==> 1 <= r.value.width <= |input|
    ensures r.Some? && r.value.key.Char? ==>
      r.value.width == 1 && r.value.key.c == input[0] && !IsControl(shell, input[0])
    ensures r.Some? && r.value.key == CtrlC ==> shell == MyShell
  {
    if input == [] then None
    else
      var ch := input[0];
      if ch == NEWLINE then Some(Decoded(Newline, 1))
      else if shell == MyShell && ch == CTRL_C then Some(Decoded(CtrlC, 1))
      else if ch == TAB then Some(Decoded(Tab, 1))
      else if ch == ESC then
        if |input| < 3 then None else Some(Decoded(EscapeKey(input[1], input[2]), 3))
      else if ch == DEL || ch == BACKSPACE then Some(Decoded(Backspace, 1))
      else Some(Decoded(Char(ch), 1))
  }

  /** Keys a terminal can send to this shell, each in the form `Encode` gives it. */
  predicate Encodable(shell: Shell, key: Key) {
    match key
    case Char(c) => !IsControl(shell, c)
    case CtrlC => shell == MyShell
    case OtherEscape(first, second) => EscapeKey(first, second) == key
    case _ => true
  }

  /** The bytes a terminal sends for a key (DEL for backspace). */
  function Encode(key: Key): seq<char> {
    match key
    case Char(c) => [c]
    case Newline => [NEWLINE]
    case Backspace => [DEL]
    case Tab => [TAB]
    case CtrlC => [CTRL_C]
    case Up => [ESC, '[', 'A']
    case Down => [ESC, '[', 'B']
    case Right => [ESC, '[', 'C']
    case Left => [ESC, '[', 'D']
    case OtherEscape(first, second) => [ESC, first, second]
  }

  /** Decoding recovers every key from its bytes, whatever follows them. */
  lemma DecodeEncode(shell: Shell, key: Key, rest: seq<char>)
    requires Encodable(shell, key)
    ensures Decode(shell, Encode(key) + rest) == Some(Decoded(key, |Encode(key)|))
  {
    var input := Encode(key) + rest;
    assert input[0] == Encode(key)[0];
    if |Encode(key)| == 3 {
      assert input[1] == Encode(key)[1] && input[2] == Encode(key)[2];
    }
  }

  /** Both backspace bytes decode to the same key. */
  lemma BackspaceBytes(shell: Shell, rest: seq<char>)
    ensures Decode(shell, [DEL] + rest) == Decode(shell, [BACKSPACE] + rest)
    ensures Decode(shell, [BACKSPACE] + rest) == Some(Decoded(Backspace, 1))
  {
  }

  /** Byte 0x03 is a key of its own in MyShell only; JBash inserts it like any other byte. */
  lemma CtrlCByte(rest: seq<char>)
    ensures Decode(MyShell, [CTRL_C] + rest) == Some(Decoded(CtrlC, 1))
    ensures Decode(JBash, [CTRL_C] + rest) == Some(Decoded(Char(CTRL_C), 1))
  {
  }
}
