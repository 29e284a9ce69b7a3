# JBash `parse()` in Dafny

This project models `parse()`, the command-line reader of the JBash shell, and proves properties of the model. `parse()` exists in two revisions:

- `JBash.c` (lines 108-288);
- `MyShell.c` (lines 131-293).

A `Shell` value (`JBash | MyShell`) selects the two ways they differ:

- **Ctrl-C.** MyShell decodes byte 0x03 as a key of its own, which ends the program (`exit(1)`). JBash inserts it like any other byte.
- **Backspace echo.** After a backspace, JBash reprints the rest of the line with `%.*s`, which stops at a NUL byte. MyShell prints it one `%c` per byte.

`parse()` has two halves.

1. **The raw-key line editor** (`keys.dfy`, `line_edit.dfy`, `editor.dfy`, `display.dfy`).
   - Each byte, or escape sequence, of the terminal stream is decoded into a key.
   - The key edits a growable byte buffer in place with `memmove`, and emits terminal operations that redraw the line.
   - A pure state machine, `LineEdit.Transition` and `LineEdit.Run`, states what one key and the whole read loop do.
   - The class `Editor.LineEditor` keeps the source's own state:
     - the buffer, as an `array<char>` whose length is the capacity;
     - `string_length`;
     - `cursor`.

     It is proved to follow the state machine byte for byte, including the capacity doubling of `realloc_buffer`. This holds with the idealisation listed under "Left out" for `Memory.Grow`: the cells that a doubling adds are taken to be NUL. In C they are uninitialised. A backspace at the end of a line longer than 16 bytes can then copy such a cell into the line.
   - A terminal-row model (`Display.Screen`) shows that the emitted operations keep the row in step with the buffer.
2. **The tokenizer** (`lexer.dfy`, `tokenizer.dfy`).
   - `Tokenizer.StripLeadingSpaces` shifts the leading spaces out of the buffer (`realloc_leftover_string`).
   - `Tokenizer.Tokenize` then runs the split loop on the buffer itself:
     - it writes NUL terminators into the buffer;
     - it records where each argument starts in a growable `args` vector, which ends with NULL.
   - Its result, read back as C strings the way `execvp` reads it, is proved equal to `Lexer.Lex`. `Lexer.Lex` is a recursive reading of the same loop, stated on the finished line.
   - Lemmas about `Lexer.Lex` pin down what the loop does on the inputs that matter.

`CommandLine.Parse` composes both halves, as `parse()` does.

The loop is modelled as written, and the following behaviours are proved as they are:

- **A closing quote followed by a space produces an empty argument.** A reader would expect `echo "hello world" there` to give `[echo, hello world, there]`. The code produces `[echo, hello world, "", there]`, and the model follows the code (`Lexer.EchoQuoted`, `Lexer.SpaceAfterClosingQuote`).
- **Text before a quote is dropped.** A quote inside a word discards the text before it: `ab"c"` gives `[c]`.
- **A quote at the first byte is literal.** A quote as the very first byte of the line is an ordinary character.
- **An unclosed quote reads past the string.** The last argument runs to the end of the line. The source then reads the byte after the terminator; the model stops and reports `overrun` instead.
- **Blank-line test.** The test `!inputString[0]` looks at the first byte of the buffer, so a line whose first byte is a typed NUL counts as blank (`LineEdit.Blank`).

## Model

| member | source | states |
|---|---|---|
| Keys.Decode | MyShell.c:141-189 | The next key at the head of the byte stream. It is None exactly when the stream is empty, or when an ESC is not followed by two more bytes (the read loop breaks). A `Char` key is one byte that no other branch takes. Ctrl-C is a key only in MyShell. |
| Keys.DecodeEncode | JBash.c:142-173 | Every key a terminal sends (ESC [ A/B/C/D, other ESC x y, DEL, the plain bytes) decodes back to itself with its width, whatever bytes follow. |
| Keys.BackspaceBytes | JBash.c:173 | DEL (127) and `'\b'` are the same key. |
| Keys.CtrlCByte | MyShell.c:148-151 | Byte 0x03 is Ctrl-C in MyShell and an ordinary inserted byte in JBash. |
| LineEdit.Transition | JBash.c:132-241 | One pass of the loop body: the cursor stays within the line. Only a newline on a non-blank line finalises it, and only Ctrl-C interrupts. Reading stops only on those two, and then the line is unchanged. The line grows by one for a byte, shrinks by one for backspace past the start, and is otherwise the same length. MyShell's version (MyShell.c:146-252) is the same machine with its Ctrl-C branch and its per-byte backspace echo. |
| LineEdit.Run | JBash.c:126-243 | The read loop. It ends with a valid line and without `Editing`. Failed input consumes everything. An entered line ends right after a newline byte and is not blank. An interrupted one ends right after 0x03, in MyShell only. |
| LineEdit.InsertLaw | JBash.c:203-240 | A typed byte lands just left of the new cursor. The text before and after the cursor is kept. |
| LineEdit.BackspaceLaw | JBash.c:173-192 | Backspace removes exactly the byte left of the cursor and keeps the rest. |
| LineEdit.MoveBackCount | JBash.c:195-230 | After a mid-line edit, the cursor-back count is exactly the number of bytes right of the cursor (plus the erasing blank, for backspace). It is never 0. |
| LineEdit.InsertThenBackspace | JBash.c:173-240 | A byte typed and then erased gives back the line and the cursor. |
| LineEdit.ArrowsMove | JBash.c:155-170 | Left arrow inside the line moves the cursor one byte left, keeps the text and emits one cursor-back. Right arrow moves it one byte right and emits one cursor-forward. |
| LineEdit.BackspaceThenRetype | JBash.c:173-240 | Erasing a byte and typing it again gives back the line and the cursor. |
| LineEdit.LeftThenRight | JBash.c:155-170 | Left then right arrow restores the line and the cursor. |
| LineEdit.IgnoredKeys | JBash.c:138-176 | Tab, up, down and unknown escape sequences change nothing and draw nothing. So do backspace and left arrow at the start of the line, and right arrow at its end. |
| LineEdit.NewlineFinalisesNonBlank | JBash.c:132-137 | A newline on a blank line only reprints the prompt. On any other line it finalises the line. |
| LineEdit.CtrlCNeverBuffered | MyShell.c:148-151 | In MyShell, byte 0x03 never enters the buffer, whatever the input. |
| LineEdit.CtrlCInterrupts | MyShell.c:148-151 | In MyShell, 0x03 prints `^C` and a newline and ends reading at once, with the line untouched. |
| LineEdit.InsertMidStep | JBash.c:216-230 | A mid-line insertion on a printable line. It emits: the byte, clear-to-end-of-line, the tail, and the cursor moved back over the tail. |
| LineEdit.MirrorInsertMid | JBash.c:216-230 | That output leaves the terminal row showing the new line, with the terminal cursor at the new cursor. |
| LineEdit.MirrorInsertEnd | JBash.c:232-240 | An insertion at the end of the line, echoed as one byte, leaves the row showing the new line. |
| LineEdit.BackspaceStep | MyShell.c:204-218 | Backspace on a printable line. Either revision emits: one column back, the tail, a blank, and the cursor moved back over the tail and the blank. |
| LineEdit.RenderBackspace | JBash.c:195-201 | Drawing that output leaves the row showing the shortened line. |
| LineEdit.MirrorBackspace | JBash.c:188-201 | Backspace keeps the terminal row in step with the line, in both revisions. |
| LineEdit.DisplayMirrorsLine | JBash.c:132-242 | If the row showed the line before a key, it shows the new line after it. This covers every key but Ctrl-C and a finalising newline, on printable bytes. |
| Editor.LineEditor.constructor | JBash.c:113-124 | A cleared buffer of `STR_BUFFER` (16) bytes, an empty line, and the cursor at 0. |
| Editor.LineEditor.Reserve | JBash.c:128-130 | The capacity doubles exactly when the line and its terminator fill the buffer. The line is unchanged, and one more byte and its terminator always fit afterwards. |
| Editor.LineEditor.Press | JBash.c:132-241 | The in-place loop body yields exactly the step that `LineEdit.Transition` gives for the key: the new line, the output and the status. |
| Editor.LineEditor.Type | JBash.c:202-241 | A byte key on the buffer is that transition. |
| Editor.LineEditor.Erase | JBash.c:173-201 | Backspace on the buffer is that transition, with the echo of the shell at hand. |
| Editor.LineEditor.InsertAtCursor | JBash.c:216-222 | `memmove` right by one and the store. The new text is the old prefix, the byte, then the old tail, and the bytes after the line stay NUL. |
| Editor.LineEditor.DeleteBeforeCursor | JBash.c:188-192 | `memmove` left by one. The new text is the old text without the byte before the cursor, and the bytes after the line stay NUL. |
| Editor.LineEditor.Advance | JBash.c:126-242 | One pass of the loop (capacity check, then key) is one turn of `LineEdit.Run`. |
| Editor.LineEditor.ReadLine | JBash.c:126-243 | The whole read loop on the buffer yields exactly `LineEdit.Run` of the initial line: the final line, the output, the status and the number of bytes read. The capacity check also runs for an escape byte whose follow-up reads fail. |
| Editor.ShiftedRight | JBash.c:216-219 | The buffer after the right shift and the store holds the inserted line, followed by NUL bytes only. |
| Editor.ShiftedLeft | JBash.c:188 | The buffer after the left shift holds the shortened line, followed by NUL bytes only. |
| Memory.MemMove | JBash.c:216 | `memmove` on one array, in either direction and with overlap. Every cell in the destination range holds the old source byte, and every other cell is unchanged. |
| Memory.Grow | JBash.c:316-325 | `realloc_buffer` returns a fresh buffer of twice the capacity, with the old contents kept. |
| Lexer.LeadingSpaces | JBash.c:335-338 | The count of opening spaces. Every counted byte is a space, and the byte after them is not. |
| Lexer.StripIdempotent | JBash.c:340-343 | The stripped line does not start with a space, stripping again changes nothing, and the line is the spaces followed by the stripped line. |
| Lexer.NextEventFirst | JBash.c:258-268 | The next cut position found is the first one: no quote or last space of a run lies before it. |
| Lexer.LexAtQuote | JBash.c:258-266 | At an opening quote, the argument is the body up to the same quote (or the end). Splitting resumes after the closing quote; an unclosed quote reports an overrun. |
| Lexer.LexAtSpace | JBash.c:268-273 | At the last space of a run, the argument ends at the first space of the run. Splitting resumes after the run. |
| Lexer.LexAtEnd | JBash.c:280-284 | After the last cut, the remaining word is an argument unless its first byte is NUL. |
| Lexer.PlainTokens | JBash.c:250-284 | On a line with no quote and no NUL byte, the arguments are exactly the maximal runs of non-space bytes (`Lexer.Words`), and there is no overrun. |
| Lexer.SpacedWords | JBash.c:268-277 | Two words with any spaces before, between and after them give exactly those two arguments. |
| Lexer.QuotedArgument | JBash.c:258-266 | `w "b"` gives `w` and the quoted body `b`, spaces included. |
| Lexer.SpaceAfterClosingQuote | JBash.c:266-273 | `w "b" v` gives `w`, `b`, an empty argument, then `v`. |
| Lexer.EchoQuoted | JBash.c:250-284 | `echo "hello world" there` gives `echo`, `hello world`, the empty argument, `there`. |
| Lexer.TextBeforeQuoteDropped | JBash.c:258-261 | `w"b"` gives `b` alone. |
| Lexer.UnterminatedQuote | JBash.c:262-266 | `w "b` with no closing quote gives `w` and `b`, and reports the overrun. |
| Lexer.QuoteAtStartIsLiteral | JBash.c:258 | A quote as the first byte of the line stays in the first argument. |
| Tokenizer.StripLeadingSpaces | JBash.c:334-353 | The new buffer of exactly `len + 1` bytes holds the line without its leading spaces, then NUL. |
| Tokenizer.SkipTo | JBash.c:262 | The scan for the closing quote stops at its first occurrence, or at the end. |
| Tokenizer.OpenQuote | JBash.c:258-266 | The quote branch on the buffer: the argument pointer is after the opening quote, and the closing quote (or terminator) becomes NUL. The stored arguments are kept, and the next word starts after the close. |
| Tokenizer.EndWord | JBash.c:268-273 | The end-of-word branch on the buffer: NUL at `i - extra_whitespace` ends the word that starts at `word_start`, and the next word starts at `i + 1`. |
| Tokenizer.LayoutGrow | JBash.c:254-256 | After the vector's capacity doubles, the stored arguments are intact and one argument and its NULL fit. |
| Tokenizer.ProgressQuote | JBash.c:258-266 | The quote branch keeps "arguments so far followed by the arguments of the rest is the whole split". |
| Tokenizer.ProgressSpaceEnd | JBash.c:268-273 | The end-of-word branch keeps that invariant. `i - extra_whitespace` is exactly the first space of the run. |
| Tokenizer.ProgressSpaceRun | JBash.c:275-277 | A space followed by a space only counts one more extra space. |
| Tokenizer.QuoteStep | JBash.c:258-266 | The quote branch keeps both loop invariants (buffer layout and progress) and moves the index forward. |
| Tokenizer.SpaceStep | JBash.c:268-277 | The other branches keep both loop invariants at `i + 1`. |
| Tokenizer.SplitStep | JBash.c:258-278 | One pass of the loop body keeps both loop invariants and moves the index forward. |
| Tokenizer.ProgressEnd | JBash.c:280-284 | After the loop, the arguments so far and the final word (if any) are the whole split. An open quote leaves the overrun set. |
| Tokenizer.StoredArgv | JBash.c:285 | A vector with `count` stored pointers and NULL after them reads, as `execvp` reads it, as the stored strings. |
| Tokenizer.FinishArgs | JBash.c:280-285 | The final word is stored unless it starts with NUL, and the vector is closed with NULL. Read as strings, it is the stored arguments followed by that word. |
| Tokenizer.Tokenize | JBash.c:250-287 | The split loop on the buffer. The NULL-terminated vector reads back exactly `Lexer.Lex` of the original line, `count` is the number of arguments, and the overrun flag agrees. MyShell's loop (MyShell.c:258-292) is identical. |
| CommandLine.Parse | JBash.c:108-288 | The output, status and bytes read are those of `LineEdit.Run` from an empty line. There is no command exactly when Ctrl-C interrupted (MyShell only). Otherwise the vector reads back `Lexer.Tokens` of the entered line, with its count and overrun flag. The same holds for MyShell's `parse()` (MyShell.c:131-293). |

## Left out

- The process around `parse()` is not modelled: `execute()`, `main`, the built-ins `cd` and `exit`, `fork`/`execvp`/`waitpid`, and `free_args`.
- Terminal raw mode (`enable_raw_mode`/`disable_raw_mode`) and JBash's SIGINT handler are operating-system state.
- Memory failure is not modelled. Allocation sizes and the failure exits of `safe_malloc`/`realloc_buffer`/`realloc_leftover_string` are left out; an allocation always succeeds. `realloc_buffer` asks for `sizeof(ptr)` times the new capacity, which only over-allocates and is not modelled.
- Bytes are `char` values. Reading and writing are parameters: the input is the whole byte stream given up front, and the output is a sequence of abstract terminal operations (`Display.DisplayOp`), not escape bytes.
- Memory.Grow: fills the new cells with NUL (or NULL) where C leaves them uninitialised. MyShell's missing `memset` of the first buffer is idealised the same way. So the model does not capture that, once the input buffer has grown, a backspace at the end of the line copies the uninitialised cell `inputString[string_length]` into the line (JBash.c:188). Nor does it capture that the blank-line test `!inputString[0]` can then see a stale byte.
- Tokenizer.Tokenize: when a quote is never closed, the source reads the byte after the terminator (`word_start[0]`), outside the string. The model does not read it. It adds no final argument and returns `overrun = true`.
- LineEdit.DisplayMirrorsLine: covers printable bytes only, since control bytes other than the keys have no single-column effect on a terminal. It excludes Ctrl-C and the finalising newline, which end the line.
- Editor.LineEditor.Reserve: capacities are unbounded integers; `size_t` overflow of the doubling is not modelled.
- Tokenizer.Tokenize: lines of 2^31 bytes or more are not modelled. The split loop counts with `int i` and `int extra_whitespace` against a `size_t` length (JBash.c:250-252, MyShell.c:258-260), and JBash's backspace echo casts its length to `int` (JBash.c:197). All of these are unbounded integers here.
