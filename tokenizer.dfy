/**
 * The tokenizing half of `parse()` as the source runs it, on the buffer
 * itself: the leading spaces are shifted out (`realloc_leftover_string`),
 * then one pass over the string writes NUL terminators into it and records
 * where each argument starts in a growable `args` vector. Every argument is
 * then read back as a C string and shown to equal `Lexer.Lex`.
 */
module Tokenizer {
  import opened Chars
  import opened Lexer
  import Memory

  /** An entry of `args`: NULL, or a pointer into the input string, given by its offset. */
  datatype Arg = Null | At(start: nat)

  /** The C string that a pointer to offset `p` designates. */
  function CStr(buf: seq<char>, p: nat): seq<char>
    requires p <= |buf|
  {
    TakeUntilNul(buf[p..])
  }

  /** Every pointer in `args` lies within the buffer. */
  predicate Pointers(buf: seq<char>, args: seq<Arg>) {
    forall t :: 0 <= t < |args| && args[t].At? ==> args[t].start <= |buf|
  }

  /** The argument vector as `execvp` reads it: the strings before the first NULL. */
  function Argv(buf: seq<char>, args: seq<Arg>): seq<seq<char>>
    requires Pointers(buf, args)
  {
    if args == [] || args[0].Null? then []
    else
      assert Pointers(buf, args[1..]) by {
        forall t | 0 <= t < |args| - 1 && args[1..][t].At?
          ensures args[1..][t].start <= |buf|
        {
          assert args[1..][t] == args[t + 1];
        }
      }
      [CStr(buf, args[0].start)] + Argv(buf, args[1..])
  }

  /** A vector whose first NULL is at `count` holds `count` strings, one per pointer. */
  lemma {:induction false} ArgvPrefix(buf: seq<char>, args: seq<Arg>, count: nat)
    requires Pointers(buf, args) && count < |args| && args[count] == Null
    requires forall t :: 0 <= t < count ==> args[t].At?
    ensures |Argv(buf, args)| == count
    ensures forall t :: 0 <= t < count ==> Argv(buf, args)[t] == CStr(buf, args[t].start)
  {
    if count > 0 {
      var rest := args[1..];
      assert Pointers(buf, rest) by {
        forall t | 0 <= t < |rest| && rest[t].At?
          ensures rest[t].start <= |buf|
        {
          assert rest[t] == args[t + 1];
        }
      }
      ArgvPrefix(buf, rest, count - 1);
    }
  }

  // ---------------------------------------------------------------------
  // realloc_leftover_string

  /**
   * Counts the opening spaces (the terminator stops the count), shifts the
   * string and its terminator left over them, and moves the result into a
   * buffer of exactly `newLen + 1` bytes.
   */
  method StripLeadingSpaces(a: array<char>, len: nat) returns (b: array<char>, newLen: nat)
    requires len < a.Length && a[len] == NUL
    modifies a
    ensures fresh(b) && b.Length == newLen + 1
    ensures b[..newLen] == Strip(old(a[..len])) && b[newLen] == NUL
  {
    ghost var s := a[..len];
    var i := 0;
    while a[i] == ' '
      invariant i <= len && forall j :: 0 <= j < i ==> a[j] == ' '
      decreases len - i
    {
      i := i + 1;
    }
    LeadingSpacesIs(s, i);
    newLen := len;
    if i != 0 {
      Memory.MemMove(a, 0, i, len - i + 1);
      newLen := len - i;
    }
    assert a[..newLen] == s[i..] && a[newLen] == NUL;
    b := new char[newLen + 1];
    forall k | 0 <= k <= newLen {
      b[k] := a[k];
    }
    assert b[..newLen] == a[..newLen];
  }

  // ---------------------------------------------------------------------
  // The split loop

  /**
   * The arguments stored so far: each starts at its pointer, ends at the NUL
   * at `ends[t]`, reads `acc[t]`, and ends before `bound`, where the loop
   * may write next.
   */
  ghost predicate Stored(buf: seq<char>, args: seq<Arg>, ends: seq<nat>, acc: seq<seq<char>>, bound: nat) {
    && |args| == |ends| == |acc| && bound <= |buf|
    && forall t :: 0 <= t < |args| ==>
      && args[t].At? && args[t].start <= ends[t] < bound && buf[ends[t]] == NUL
      && buf[args[t].start..ends[t]] == acc[t] && NUL !in acc[t]
  }

  /** Writes at or after `bound` leave the stored arguments as they are. */
  lemma StoredFrame(buf: seq<char>, buf2: seq<char>, args: seq<Arg>, ends: seq<nat>, acc: seq<seq<char>>, bound: nat)
    requires Stored(buf, args, ends, acc, bound) && |buf2| == |buf|
    requires forall j :: 0 <= j < bound ==> buf2[j] == buf[j]
    ensures Stored(buf2, args, ends, acc, bound)
  {
    forall t | 0 <= t < |args|
      ensures buf2[args[t].start..ends[t]] == acc[t]
    {
      assert buf2[args[t].start..ends[t]] == buf[args[t].start..ends[t]];
    }
  }

  /** A stored argument reads, as a C string, what was stored for it. */
  lemma StoredStrings(buf: seq<char>, args: seq<Arg>, ends: seq<nat>, acc: seq<seq<char>>, bound: nat)
    requires Stored(buf, args, ends, acc, bound)
    ensures forall t :: 0 <= t < |args| ==> args[t].start <= |buf| && CStr(buf, args[t].start) == acc[t]
  {
    forall t | 0 <= t < |args|
      ensures CStr(buf, args[t].start) == acc[t]
    {
      var p, e := args[t].start, ends[t];
      assert buf[p..] == acc[t] + buf[e..];
      TakeUntilNulStops(acc[t], buf[e..]);
      TakeUntilNulWhole(acc[t]);
    }
  }

  /**
   * The buffer and the vector at the head of the split loop, for the string
   * `s` as it was before the loop wrote into it: the terminator is in place,
   * bytes from `ws` (the offset of `word_start`) on are unchanged, the
   * stored arguments end before `ws`, NULL fills the vector after them, and
   * there is room for one more argument and its NULL unless the loop has
   * just stored one.
   */
  ghost predicate Layout(s: seq<char>, buf: seq<char>, args: seq<Arg>, count: nat, ends: seq<nat>,
                         acc: seq<seq<char>>, i: nat, ws: nat)
  {
    && |buf| == |s| + 1 && buf[|s|] == NUL && ws <= |buf|
    && count < |args| && (count + 1 < |args| || ws == i)
    && (forall t :: count <= t < |args| ==> args[t] == Null)
    && (forall j :: ws <= j < |s| ==> buf[j] == s[j])
    && Stored(buf, args[..count], ends, acc, ws)
  }

  /**
   * How far splitting has got: `acc` followed by `Lex(s, ws)` is the whole
   * result, no event lies between `ws` and the index `i`, and `extra`
   * (`extra_whitespace`) counts the spaces of the run that ends at `i`.
   * Once a quote is left open, `ws` is past the terminator.
   */
  ghost predicate Progress(s: seq<char>, acc: seq<seq<char>>, i: nat, ws: nat, extra: nat) {
    && ws <= i <= |s| + 1
    && if ws <= |s| then
      && i <= |s|
      && Lex(s, 0) == Lexed(acc + Lex(s, ws).tokens, Lex(s, ws).overrun)
      && NextEvent(s, ws) == NextEvent(s, i)
      && extra == (if Find(s, ws, ' ') < i then i - Find(s, ws, ' ') else 0)
    else
      Lex(s, 0) == Lexed(acc, true) && i == |s| + 1
  }

  lemma LayoutStart(s: seq<char>, buf: seq<char>, args: seq<Arg>)
    requires |buf| == |s| + 1 && buf[..|s|] == s && buf[|s|] == NUL
    requires |args| >= 2 && forall t :: 0 <= t < |args| ==> args[t] == Null
    ensures Layout(s, buf, args, 0, [], [], 0, 0)
  {
    assert forall j :: 0 <= j < |s| ==> buf[j] == buf[..|s|][j];
  }

  lemma ProgressStart(s: seq<char>)
    ensures Progress(s, [], 0, 0, 0)
  {
    assert Lex(s, 0) == Lexed([] + Lex(s, 0).tokens, Lex(s, 0).overrun);
  }

  /** Inside the loop the bytes it reads, `s[i]` and `s[i + 1]`, are still the original ones. */
  lemma LayoutReads(s: seq<char>, buf: seq<char>, args: seq<Arg>, count: nat, ends: seq<nat>,
                    acc: seq<seq<char>>, i: nat, ws: nat)
    requires Layout(s, buf, args, count, ends, acc, i, ws) && ws <= i < |s|
    ensures buf[i] == s[i] && buf[i + 1] == After(s, i)
  {
  }

  /** The capacity check: after a doubling there is room for an argument and the NULL after it. */
  lemma LayoutGrow(s: seq<char>, buf: seq<char>, args: seq<Arg>, args2: seq<Arg>, count: nat, ends: seq<nat>,
                   acc: seq<seq<char>>, i: nat, ws: nat)
    requires Layout(s, buf, args, count, ends, acc, i, ws)
    requires |args2| == 2 * |args| && args2[..|args|] == args
    requires forall t :: |args| <= t < |args2| ==> args2[t] == Null
    ensures Layout(s, buf, args2, count, ends, acc, i, ws) && count + 1 < |args2|
  {
    assert args2[..count] == args[..count];
    forall t | count <= t < |args2|
      ensures args2[t] == Null
    {
      if t < |args| {
        assert args2[t] == args2[..|args|][t];
      }
    }
  }

  /**
   * Storing the argument that starts at `from` and is terminated by a NUL
   * written at `end`: it reads `CStringAt(s, from, end)`, and the next word
   * starts at `next`.
   */
  lemma LayoutPush(s: seq<char>, buf: seq<char>, args: seq<Arg>, count: nat, ends: seq<nat>,
                   acc: seq<seq<char>>, i: nat, ws: nat, from: nat, end: nat, next: nat)
    requires Layout(s, buf, args, count, ends, acc, i, ws) && count + 1 < |args|
    requires ws <= from <= end <= |s| && end < next <= |s| + 1
    ensures Layout(s, buf[end := NUL], args[count := At(from)], count + 1, ends + [FindIn(s, from, end, NUL)],
                   acc + [CStringAt(s, from, end)], next, next)
  {
    var tok, e := CStringAt(s, from, end), FindIn(s, from, end, NUL);
    FindInFirst(s, from, end, NUL);
    var buf2, args2 := buf[end := NUL], args[count := At(from)];
    StoredFrame(buf, buf2, args[..count], ends, acc, ws);
    assert buf2[e] == NUL;
    assert buf2[from..e] == tok;
    assert args2[..count + 1] == args[..count] + [At(from)];
  }

  /** Where a run of spaces began, given the loop has crossed no event since `ws`. */
  lemma RunStart(s: seq<char>, ws: nat, i: nat)
    requires ws <= i < |s| && NextEvent(s, ws) == NextEvent(s, i)
    ensures var f := Find(s, ws, ' ');
      && ws <= f && (f < |s| ==> s[f] == ' ')
      && (s[i] == ' ' ==> f <= i)
      && (f < i ==> s[i] == ' ')
  {
    var f := Find(s, ws, ' ');
    FindInFirst(s, ws, |s|, ' ');
    if f < i {
      NextEventFirst(s, ws);
      SpaceRun(s, f, i);
    }
  }

  /**
   * An opening quote: the argument is the bytes up to the closing quote,
   * and the next word starts after it. An unclosed quote ends the loop with
   * `ws` past the terminator. `extra` is zero here, as no space precedes.
   */
  lemma ProgressQuote(s: seq<char>, acc: seq<seq<char>>, i: nat, ws: nat, extra: nat, c: nat)
    requires Progress(s, acc, i, ws, extra) && i < |s| && i != 0 && IsQuote(s[i])
    requires c == Find(s, i + 1, s[i])
    ensures ws <= i
    ensures Progress(s, acc + [CStringAt(s, i + 1, c)], c + 1, c + 1, extra)
  {
    RunStart(s, ws, i);
    LexAtQuote(s, ws, i);
    if c < |s| {
      var rest := Lex(s, c + 1);
      assert acc + ([CStringAt(s, i + 1, c)] + rest.tokens) == acc + [CStringAt(s, i + 1, c)] + rest.tokens;
    }
  }

  /** The last space of a run: the word ends at the first space of the run, `i - extra`. */
  lemma ProgressSpaceEnd(s: seq<char>, acc: seq<seq<char>>, i: nat, ws: nat, extra: nat)
    requires Progress(s, acc, i, ws, extra) && i < |s| && s[i] == ' ' && After(s, i) != ' '
    ensures ws <= i && extra <= i && i - extra == Find(s, ws, ' ')
    ensures ws <= i - extra && Progress(s, acc + [CStringAt(s, ws, i - extra)], i + 1, i + 1, 0)
  {
    RunStart(s, ws, i);
    LexAtSpace(s, ws, i);
    var rest := Lex(s, i + 1);
    var token := CStringAt(s, ws, Find(s, ws, ' '));
    assert acc + ([token] + rest.tokens) == acc + [token] + rest.tokens;
  }

  /** A space followed by another: the run goes on, one more space to account for. */
  lemma ProgressSpaceRun(s: seq<char>, acc: seq<seq<char>>, i: nat, ws: nat, extra: nat)
    requires Progress(s, acc, i, ws, extra) && i < |s| && s[i] == ' ' && After(s, i) == ' '
    ensures Progress(s, acc, i + 1, ws, extra + 1)
  {
    RunStart(s, ws, i);
    assert !IsEvent(s, i);
  }

  /** Any other byte: nothing happens. */
  lemma ProgressOther(s: seq<char>, acc: seq<seq<char>>, i: nat, ws: nat, extra: nat)
    requires Progress(s, acc, i, ws, extra) && i < |s|
    requires !(i != 0 && IsQuote(s[i])) && s[i] != ' '
    ensures Progress(s, acc, i + 1, ws, extra)
  {
    RunStart(s, ws, i);
    assert !IsEvent(s, i);
  }

  /** After the loop: the last word, if its first byte is not the terminator, completes the arguments. */
  lemma ProgressEnd(s: seq<char>, acc: seq<seq<char>>, i: nat, ws: nat, extra: nat)
    requires Progress(s, acc, i, ws, extra) && i >= |s|
    ensures ws > |s| ==> Lex(s, 0) == Lexed(acc, true)
    ensures ws <= |s| ==> Lex(s, 0) == Lexed(acc + Closing(s, ws), false)
  {
    if ws <= |s| {
      LexAtEnd(s, ws);
    }
  }

  /** The finished vector, read as `execvp` reads it, is the list of stored arguments. */
  lemma StoredArgv(buf: seq<char>, args: seq<Arg>, count: nat, ends: seq<nat>, acc: seq<seq<char>>, bound: nat)
    requires count < |args| && Stored(buf, args[..count], ends, acc, bound)
    requires forall t :: count <= t < |args| ==> args[t] == Null
    ensures Pointers(buf, args) && Argv(buf, args) == acc
  {
    StoredStrings(buf, args[..count], ends, acc, bound);
    assert forall t :: 0 <= t < count ==> args[t] == args[..count][t];
    ArgvPrefix(buf, args, count);
  }

  /** `while (i < string_length && inputString[i] != quote) i++;` */
  method SkipTo(a: array<char>, from: nat, end: nat, q: char) returns (c: nat)
    requires from <= end <= a.Length
    ensures c == FindIn(a[..], from, end, q)
  {
    c := from;
    while c < end && a[c] != q
      invariant from <= c <= end
      invariant FindIn(a[..], from, end, q) == FindIn(a[..], c, end, q)
      decreases end - c
    {
      c := c + 1;
    }
  }

  /**
   * The quote branch: the argument starts after the opening quote at `i`,
   * the closing quote (or the terminator) at `close` is overwritten with
   * NUL, and the next word starts after it.
   */
  method OpenQuote(a: array<char>, len: nat, args: array<Arg>, count: nat, i: nat, wordStart: nat,
                   ghost s: seq<char>, ghost ends: seq<nat>, ghost acc: seq<seq<char>>)
    returns (close: nat)
    requires a.Length == len + 1 && |s| == len && wordStart <= i < len && count + 1 < args.Length
    requires Layout(s, a[..], args[..], count, ends, acc, i, wordStart)
    requires IsQuote(a[i])
    modifies a, args
    ensures i < close <= len && close == Find(s, i + 1, s[i])
    ensures Layout(s, a[..], args[..], count + 1, ends + [FindIn(s, i + 1, close, NUL)],
                   acc + [CStringAt(s, i + 1, close)], close + 1, close + 1)
  {
    ghost var buf, argv := a[..], args[..];
    var quote := a[i];
    close := SkipTo(a, i + 1, len, quote);
    FindInAgree(buf, s, i + 1, len, quote);
    LayoutPush(s, buf, argv, count, ends, acc, i, wordStart, i + 1, close, close + 1);
    a[close] := NUL;
    args[count] := At(i + 1);
    assert a[..] == buf[close := NUL] && args[..] == argv[count := At(i + 1)];
  }

  /**
   * The end-of-word branch, at the last space of a run: the first space of
   * the run, `i - extra_whitespace`, is overwritten with NUL, and the next
   * word starts after the run.
   */
  method EndWord(a: array<char>, len: nat, args: array<Arg>, count: nat, i: nat, wordStart: nat, extra: nat,
                 ghost s: seq<char>, ghost ends: seq<nat>, ghost acc: seq<seq<char>>)
    requires a.Length == len + 1 && |s| == len && i < len && count + 1 < args.Length
    requires extra <= i && wordStart <= i - extra
    requires Layout(s, a[..], args[..], count, ends, acc, i, wordStart)
    modifies a, args
    ensures Layout(s, a[..], args[..], count + 1, ends + [FindIn(s, wordStart, i - extra, NUL)],
                   acc + [CStringAt(s, wordStart, i - extra)], i + 1, i + 1)
  {
    ghost var buf, argv := a[..], args[..];
    LayoutPush(s, buf, argv, count, ends, acc, i, wordStart, wordStart, i - extra, i + 1);
    a[i - extra] := NUL;
    args[count] := At(wordStart);
    assert a[..] == buf[i - extra := NUL] && args[..] == argv[count := At(wordStart)];
  }

  /** The quote branch of the loop body, with the progress it makes. */
  method QuoteStep(a: array<char>, len: nat, args: array<Arg>, count: nat, i: nat, wordStart: nat, extra: nat,
                   ghost s: seq<char>, ghost ends: seq<nat>, ghost acc: seq<seq<char>>)
    returns (count': nat, i': nat, wordStart': nat, ghost ends': seq<nat>, ghost acc': seq<seq<char>>)
    requires a.Length == len + 1 && |s| == len && i < len && count + 1 < args.Length
    requires Layout(s, a[..], args[..], count, ends, acc, i, wordStart)
    requires Progress(s, acc, i, wordStart, extra)
    requires i != 0 && IsQuote(s[i])
    modifies a, args
    ensures Layout(s, a[..], args[..], count', ends', acc', i', wordStart')
    ensures Progress(s, acc', i', wordStart', extra)
    ensures i < i'
  {
    var close := OpenQuote(a, len, args, count, i, wordStart, s, ends, acc);
    ProgressQuote(s, acc, i, wordStart, extra, close);
    count', i', wordStart' := count + 1, close + 1, close + 1;
    ends', acc' := ends + [FindIn(s, i + 1, close, NUL)], acc + [CStringAt(s, i + 1, close)];
  }

  /** The loop body on any byte other than a quote: the end of a word, a run of spaces, or nothing. */
  method SpaceStep(a: array<char>, len: nat, args: array<Arg>, count: nat, i: nat, wordStart: nat, extra: nat,
                   ghost s: seq<char>, ghost ends: seq<nat>, ghost acc: seq<seq<char>>)
    returns (count': nat, wordStart': nat, extra': nat, ghost ends': seq<nat>, ghost acc': seq<seq<char>>)
    requires a.Length == len + 1 && |s| == len && i < len && count + 1 < args.Length
    requires Layout(s, a[..], args[..], count, ends, acc, i, wordStart)
    requires Progress(s, acc, i, wordStart, extra)
    requires !(i != 0 && IsQuote(s[i]))
    modifies a, args
    ensures Layout(s, a[..], args[..], count', ends', acc', i + 1, wordStart')
    ensures Progress(s, acc', i + 1, wordStart', extra')
  {
    LayoutReads(s, a[..], args[..], count, ends, acc, i, wordStart);
    if a[i] == ' ' && a[i + 1] != ' ' {
      ProgressSpaceEnd(s, acc, i, wordStart, extra);
      EndWord(a, len, args, count, i, wordStart, extra, s, ends, acc);
      count', wordStart', extra' := count + 1, i + 1, 0;
      ends', acc' := ends + [FindIn(s, wordStart, i - extra, NUL)], acc + [CStringAt(s, wordStart, i - extra)];
    } else if a[i] == ' ' && a[i + 1] == ' ' {
      ProgressSpaceRun(s, acc, i, wordStart, extra);
      count', wordStart', extra', ends', acc' := count, wordStart, extra + 1, ends, acc;
    } else {
      ProgressOther(s, acc, i, wordStart, extra);
      count', wordStart', extra', ends', acc' := count, wordStart, extra, ends, acc;
    }
  }

  /**
   * One pass of the split loop's body at index `i`, with the capacity check
   * already made. Returns the index the `for` loop's increment then moves to.
   */
  method SplitStep(a: array<char>, len: nat, args: array<Arg>, count: nat, i: nat, wordStart: nat, extra: nat,
                   ghost s: seq<char>, ghost ends: seq<nat>, ghost acc: seq<seq<char>>)
    returns (count': nat, i': nat, wordStart': nat, extra': nat, ghost ends': seq<nat>, ghost acc': seq<seq<char>>)
    requires a.Length == len + 1 && |s| == len && i < len && count + 1 < args.Length
    requires Layout(s, a[..], args[..], count, ends, acc, i, wordStart)
    requires Progress(s, acc, i, wordStart, extra)
    modifies a, args
    ensures Layout(s, a[..], args[..], count', ends', acc', i', wordStart')
    ensures Progress(s, acc', i', wordStart', extra')
    ensures i < i'
  {
    LayoutReads(s, a[..], args[..], count, ends, acc, i, wordStart);
    if i != 0 && IsQuote(a[i]) {
      count', i', wordStart', ends', acc' := QuoteStep(a, len, args, count, i, wordStart, extra, s, ends, acc);
      extra' := extra;
    } else {
      count', wordStart', extra', ends', acc' := SpaceStep(a, len, args, count, i, wordStart, extra, s, ends, acc);
      i' := i + 1;
    }
  }

  /**
   * After the loop: the last word is stored unless its first byte is the
   * terminator (or a quote was left open), and the vector is closed with NULL.
   */
  method FinishArgs(a: array<char>, len: nat, args: array<Arg>, count: nat, i: nat, wordStart: nat,
                    ghost s: seq<char>, ghost ends: seq<nat>, ghost acc: seq<seq<char>>)
    returns (count': nat)
    requires a.Length == len + 1 && |s| == len && len <= i
    requires Layout(s, a[..], args[..], count, ends, acc, i, wordStart)
    modifies args
    ensures count' < args.Length && args[count'] == Null
    ensures Pointers(a[..], args[..]) && Argv(a[..], args[..]) == acc + Closing(s, wordStart)
    ensures count' == |acc + Closing(s, wordStart)|
  {
    ghost var buf := a[..];
    count' := count;
    ghost var ends', acc', bound := ends, acc, wordStart;
    if wordStart <= len && a[wordStart] != NUL {
      ghost var argv := args[..];
      LayoutPush(s, buf, argv, count, ends, acc, i, wordStart, wordStart, len, len + 1);
      assert buf[len := NUL] == buf;
      args[count] := At(wordStart);
      ends', acc', bound := ends + [FindIn(s, wordStart, len, NUL)], acc + [CStringAt(s, wordStart, len)], len + 1;
      assert args[..] == argv[count := At(wordStart)];
      count' := count + 1;
    }
    ghost var closed := args[..];
    args[count'] := Null;
    assert args[..count'] == closed[..count'];
    StoredArgv(buf, args[..], count', ends', acc', bound);
  }

  /**
   * The split loop over a string of `len` bytes and its terminator. It
   * returns the argument vector, the number of arguments, and whether a
   * quote was left open: the source then tests the byte after the
   * terminator, which this model does not read.
   */
  method Tokenize(a: array<char>, len: nat) returns (args: array<Arg>, count: nat, overrun: bool)
    requires a.Length == len + 1 && a[len] == NUL
    modifies a
    ensures fresh(args) && count < args.Length && args[count] == Null
    ensures Pointers(a[..], args[..])
    ensures Argv(a[..], args[..]) == Lex(old(a[..len]), 0).tokens
    ensures count == |Lex(old(a[..len]), 0).tokens|
    ensures overrun == Lex(old(a[..len]), 0).overrun
  {
    ghost var s := a[..len];
    args := new Arg[CMD_LINE_BUFFER](_ => Null);
    count := 0;
    var extra: nat := 0;
    var wordStart: nat := 0;
    ghost var ends: seq<nat> := [];
    ghost var acc: seq<seq<char>> := [];
    LayoutStart(s, a[..], args[..]);
    ProgressStart(s);
    var i: nat := 0;
    while i < len
      invariant fresh(args)
      invariant Layout(s, a[..], args[..], count, ends, acc, i, wordStart)
      invariant Progress(s, acc, i, wordStart, extra)
      decreases len + 1 - i
    {
      if count + 1 >= args.Length {
        ghost var before := args[..];
        args := Memory.Grow(args, Null);
        LayoutGrow(s, a[..], before, args[..], count, ends, acc, i, wordStart);
      }
      count, i, wordStart, extra, ends, acc := SplitStep(a, len, args, count, i, wordStart, extra, s, ends, acc);
    }
    ProgressEnd(s, acc, i, wordStart, extra);
    overrun := wordStart > len;
    count := FinishArgs(a, len, args, count, i, wordStart, s, ends, acc);
  }
}
