/**
 * What the tokenizing half of `parse()` computes, stated on the finished
 * line as a sequence of bytes: the leading spaces are removed, then the
 * line is cut at "events" — a quote anywhere but the first byte, or a space
 * not followed by another space — exactly as the source's loop cuts it,
 * including its quirks.
 */
module Lexer {
  import opened Chars

  // ---------------------------------------------------------------------
  // Removing leading spaces (realloc_leftover_string)

  /** The number of spaces that open the line. */
  function LeadingSpaces(s: seq<char>): (n: nat)
    ensures n <= |s|
    ensures forall j :: 0 <= j < n ==> s[j] == ' '
    ensures n < |s| ==> s[n] != ' '
  {
    if s == [] || s[0] != ' ' then 0 else 1 + LeadingSpaces(s[1..])
  }

  /** A count of opening spaces followed by a non-space (or the end) is the count. */
  lemma {:induction false} LeadingSpacesIs(s: seq<char>, n: nat)
    requires n <= |s| && (forall j :: 0 <= j < n ==> s[j] == ' ') && (n < |s| ==> s[n] != ' ')
    ensures LeadingSpaces(s) == n
  {
    if n > 0 {
      assert s[0] == ' ';
      LeadingSpacesIs(s[1..], n - 1);
    }
  }

  function Strip(s: seq<char>): seq<char> {
    s[LeadingSpaces(s)..]
  }

  /** A stripped line does not start with a space, and stripping it again changes nothing. */
  lemma {:induction false} StripIdempotent(s: seq<char>)
    ensures Strip(s) == [] || Strip(s)[0] != ' '
    ensures Strip(Strip(s)) == Strip(s)
    ensures s == Spaces(LeadingSpaces(s)) + Strip(s)
  {
    var n := LeadingSpaces(s);
    assert LeadingSpaces(s[n..]) == 0;
    assert s[..n] == Spaces(n);
  }

  function Spaces(n: nat): (r: seq<char>)
    ensures |r| == n && forall j :: 0 <= j < n ==> r[j] == ' '
  {
    if n == 0 then [] else [' '] + Spaces(n - 1)
  }

  // ---------------------------------------------------------------------
  // Events of the split loop

  /** `inputString[i + 1]`: the byte after `i`, the terminator after the last one. */
  function After(s: seq<char>, i: nat): char {
    if i + 1 < |s| then s[i + 1] else NUL
  }

  /** A position where the loop cuts: an opening quote (not at position 0) or the last space of a run. */
  predicate IsEvent(s: seq<char>, i: nat)
    requires i < |s|
  {
    (i != 0 && IsQuote(s[i])) || (s[i] == ' ' && After(s, i) != ' ')
  }

  /** The first event at or after `from`, or |s| when there is none. */
  function NextEvent(s: seq<char>, from: nat): (k: nat)
    requires from <= |s|
    ensures from <= k <= |s|
    decreases |s| - from
  {
    if from == |s| then |s|
    else if IsEvent(s, from) then from
    else NextEvent(s, from + 1)
  }

  /** `NextEvent` finds the first event: none lies before it, and it is one unless it is the end. */
  lemma {:induction false} NextEventFirst(s: seq<char>, from: nat)
    requires from <= |s|
    ensures var k := NextEvent(s, from);
      && (forall j :: from <= j < k ==> !IsEvent(s, j))
      && (k < |s| ==> IsEvent(s, k))
    decreases |s| - from
  {
    if from < |s| && !IsEvent(s, from) {
      NextEventFirst(s, from + 1);
    }
  }

  /**
   * The arguments, and whether a quote was left open: the source then
   * reads past the end of the string, which this model does not follow.
   */
  datatype Lexed = Lexed(tokens: seq<seq<char>>, overrun: bool)

  /**
   * After the loop: the word left unterminated is stored unless its first
   * byte is the terminator.
   */
  function Closing(s: seq<char>, ws: nat): seq<seq<char>> {
    if ws < |s| && s[ws] != NUL then [CStringAt(s, ws, |s|)] else []
  }

  /**
   * The arguments of `s` from the word that starts at `ws` on. Each is read
   * as a C string, so it ends at the NUL the loop writes, or earlier at a
   * NUL byte typed into the line.
   */
  function Lex(s: seq<char>, ws: nat): (r: Lexed)
    requires ws <= |s|
    decreases |s| - ws
  {
    var k := NextEvent(s, ws);
    if k == |s| then
      Lexed(Closing(s, ws), false)
    else if IsQuote(s[k]) then
      // the text between `ws` and the quote is dropped; the closing quote becomes the terminator
      var c := Find(s, k + 1, s[k]);
      var token := CStringAt(s, k + 1, c);
      if c == |s| then Lexed([token], true)
      else
        var rest := Lex(s, c + 1);
        Lexed([token] + rest.tokens, rest.overrun)
    else
      // the last space of a run: the word ends at the first space of the run
      var token := CStringAt(s, ws, Find(s, ws, ' '));
      var rest := Lex(s, k + 1);
      Lexed([token] + rest.tokens, rest.overrun)
  }

  /** At an opening quote: the argument is its body, and splitting resumes after the closing quote. */
  lemma {:induction false} LexAtQuote(s: seq<char>, ws: nat, i: nat)
    requires ws <= i < |s| && NextEvent(s, ws) == NextEvent(s, i) && i != 0 && IsQuote(s[i])
    ensures var c := Find(s, i + 1, s[i]); var token := CStringAt(s, i + 1, c);
      Lex(s, ws) ==
        if c == |s| then Lexed([token], true)
        else Lexed([token] + Lex(s, c + 1).tokens, Lex(s, c + 1).overrun)
  {
    assert IsEvent(s, i);
  }

  /** At the last space of a run: the argument ends at the first space after `ws`. */
  lemma {:induction false} LexAtSpace(s: seq<char>, ws: nat, i: nat)
    requires ws <= i < |s| && NextEvent(s, ws) == NextEvent(s, i) && s[i] == ' ' && After(s, i) != ' '
    ensures var rest := Lex(s, i + 1);
      Lex(s, ws) == Lexed([CStringAt(s, ws, Find(s, ws, ' '))] + rest.tokens, rest.overrun)
  {
    assert IsEvent(s, i);
  }

  /** With no event left: at most the last word. */
  lemma {:induction false} LexAtEnd(s: seq<char>, ws: nat)
    requires ws <= |s| && NextEvent(s, ws) == NextEvent(s, |s|)
    ensures Lex(s, ws) == Lexed(if ws < |s| && s[ws] != NUL then [CStringAt(s, ws, |s|)] else [], false)
  {
  }

  /** The arguments of a whole line, after its leading spaces are removed. */
  function Tokens(line: seq<char>): Lexed {
    Lex(Strip(line), 0)
  }

  // ---------------------------------------------------------------------
  // The intended reading: maximal runs of non-space bytes

  /** The longest prefix without a space. */
  function Word(s: seq<char>): (w: seq<char>)
    ensures w <= s && ' ' !in w
    ensures |w| < |s| ==> s[|w|] == ' '
  {
    if s == [] || s[0] == ' ' then [] else [s[0]] + Word(s[1..])
  }

  /** The words of `s`: its maximal runs of non-space bytes, in order. */
  function Words(s: seq<char>): (r: seq<seq<char>>)
    ensures forall t :: t in r ==> t != [] && ' ' !in t
    decreases |s|
  {
    if s == [] then []
    else if s[0] == ' ' then Words(s[1..])
    else
      var w := Word(s);
      [w] + Words(s[|w|..])
  }

  /** Spaces in front of a line do not change its words. */
  lemma {:induction false} WordsSkipSpaces(n: nat, s: seq<char>)
    ensures Words(Spaces(n) + s) == Words(s)
  {
    if n > 0 {
      assert (Spaces(n) + s)[1..] == Spaces(n - 1) + s;
      WordsSkipSpaces(n - 1, s);
    } else {
      assert Spaces(n) + s == s;
    }
  }

  /** A word followed by spaces and more text. */
  lemma {:induction false} WordsSplit(w: seq<char>, n: nat, s: seq<char>)
    requires w != [] && ' ' !in w && n > 0
    ensures Words(w + Spaces(n) + s) == [w] + Words(s)
  {
    var t := w + Spaces(n) + s;
    WordPrefix(w, Spaces(n) + s);
    assert t == w + (Spaces(n) + s);
    assert t[|w|..] == Spaces(n) + s;
    WordsSkipSpaces(n, s);
  }

  /** The first word of `w + rest` is `w` when `rest` starts with a space or is empty. */
  lemma {:induction false} WordPrefix(w: seq<char>, rest: seq<char>)
    requires ' ' !in w && (rest == [] || rest[0] == ' ')
    ensures Word(w + rest) == w
  {
    if w != [] {
      assert (w + rest)[1..] == w[1..] + rest;
      WordPrefix(w[1..], rest);
    } else {
      assert w + rest == rest;
    }
  }

  // ---------------------------------------------------------------------
  // Lines without quotes and NUL bytes are split into their words

  predicate Plain(s: seq<char>) {
    forall j :: 0 <= j < |s| ==> s[j] != NUL && !IsQuote(s[j])
  }

  /** A space is followed, within its run, by a last space, which is an event. */
  lemma {:induction false} SpaceReachesEvent(s: seq<char>, j: nat)
    requires j < |s| && s[j] == ' '
    ensures NextEvent(s, j) < |s|
    decreases |s| - j
  {
    if !IsEvent(s, j) {
      assert s[j + 1] == ' ';
      SpaceReachesEvent(s, j + 1);
    }
  }

  /** Between the first space after `ws` and the next event, every byte is a space. */
  lemma {:induction false} SpaceRun(s: seq<char>, from: nat, k: nat)
    requires from <= k < |s| && s[from] == ' '
    requires forall j :: from <= j < k ==> !IsEvent(s, j)
    ensures forall j :: from <= j <= k ==> s[j] == ' '
    decreases k - from
  {
    if from < k {
      assert !IsEvent(s, from);
      SpaceRun(s, from + 1, k);
    }
  }

  /** With no event left, no space is left either. */
  lemma {:induction false} NoEventNoSpace(s: seq<char>, ws: nat)
    requires ws <= |s| && NextEvent(s, ws) == |s|
    ensures forall j :: ws <= j < |s| ==> s[j] != ' '
  {
    NextEventFirst(s, ws);
    forall j | ws <= j < |s|
      ensures s[j] != ' '
    {
      if s[j] == ' ' {
        SpaceReachesEvent(s, j);
        NextEventFirst(s, j);
        assert false;
      }
    }
  }

  /**
   * On a quote-free line the next event after a word is the last space of
   * the run that ends it: the word, its spaces and the rest lie side by side.
   */
  lemma {:induction false} PlainWordEnds(s: seq<char>, ws: nat)
    requires Plain(s) && ws < |s| && s[ws] != ' ' && NextEvent(s, ws) < |s|
    ensures var k, f := NextEvent(s, ws), Find(s, ws, ' ');
      && ws < f <= k
      && s[ws..] == s[ws..f] + Spaces(k + 1 - f) + s[k + 1..]
      && ' ' !in s[ws..f]
      && CStringAt(s, ws, f) == s[ws..f]
      && (k + 1 < |s| ==> s[k + 1] != ' ')
      && s[k] == ' ' && After(s, k) != ' '
  {
    var k, f := NextEvent(s, ws), Find(s, ws, ' ');
    NextEventFirst(s, ws);
    FindInFirst(s, ws, |s|, ' ');
    SpaceRun(s, f, k);
    CStringAtWhole(s, ws, f);
    assert s[f..k + 1] == Spaces(k + 1 - f);
  }

  /** On a quote-free, NUL-free line, splitting from the start of a word gives the words. */
  lemma {:induction false} LexPlain(s: seq<char>, ws: nat)
    requires Plain(s) && ws <= |s| && (ws < |s| ==> s[ws] != ' ')
    ensures Lex(s, ws) == Lexed(Words(s[ws..]), false)
    decreases |s| - ws
  {
    var k := NextEvent(s, ws);
    if k == |s| {
      LexPlainLast(s, ws);
    } else {
      PlainNextWord(s, ws);
      LexPlain(s, k + 1);
      PlainStep(s, ws);
    }
  }

  /** After the run of spaces that ends a word, the next word starts (or the line ends). */
  lemma PlainNextWord(s: seq<char>, ws: nat)
    requires Plain(s) && ws < |s| && s[ws] != ' ' && NextEvent(s, ws) < |s|
    ensures var k := NextEvent(s, ws); k + 1 < |s| ==> s[k + 1] != ' '
  {
    PlainWordEnds(s, ws);
  }

  /** One word of a quote-free line: splitting and the intended reading both take it, then go on after its spaces. */
  lemma PlainStep(s: seq<char>, ws: nat)
    requires Plain(s) && ws < |s| && s[ws] != ' ' && NextEvent(s, ws) < |s|
    requires var k := NextEvent(s, ws); Lex(s, k + 1) == Lexed(Words(s[k + 1..]), false)
    ensures Lex(s, ws) == Lexed(Words(s[ws..]), false)
  {
    PlainStepWords(s, ws);
    PlainStepLex(s, ws);
  }

  lemma PlainStepWords(s: seq<char>, ws: nat)
    requires Plain(s) && ws < |s| && s[ws] != ' ' && NextEvent(s, ws) < |s|
    ensures var k, w := NextEvent(s, ws), s[ws..Find(s, ws, ' ')];
      Words(s[ws..]) == [w] + Words(s[k + 1..])
  {
    PlainWordEnds(s, ws);
    WordsAtSpace(s, ws, Find(s, ws, ' '), NextEvent(s, ws));
  }

  /** A word, a run of spaces and the rest, read off by position. */
  lemma WordsAtSpace(s: seq<char>, ws: nat, f: nat, k: nat)
    requires ws < f <= k < |s| && ' ' !in s[ws..f]
    requires s[ws..] == s[ws..f] + Spaces(k + 1 - f) + s[k + 1..]
    ensures Words(s[ws..]) == [s[ws..f]] + Words(s[k + 1..])
  {
    WordsSplit(s[ws..f], k + 1 - f, s[k + 1..]);
  }

  lemma PlainStepLex(s: seq<char>, ws: nat)
    requires Plain(s) && ws < |s| && s[ws] != ' ' && NextEvent(s, ws) < |s|
    ensures var k, w := NextEvent(s, ws), s[ws..Find(s, ws, ' ')];
      Lex(s, ws) == Lexed([w] + Lex(s, k + 1).tokens, Lex(s, k + 1).overrun)
  {
    var k := NextEvent(s, ws);
    PlainWordEnds(s, ws);
    LexAtSpace(s, ws, k);
  }

  /** The same, once no event is left: the rest of the line is one word, or nothing. */
  lemma LexPlainLast(s: seq<char>, ws: nat)
    requires Plain(s) && ws <= |s| && NextEvent(s, ws) == |s|
    ensures Lex(s, ws) == Lexed(Words(s[ws..]), false)
  {
    LexAtEnd(s, ws);
    if ws < |s| {
      NoEventNoSpace(s, ws);
      var t := s[ws..];
      CStringAtWhole(s, ws, |s|);
      assert s[ws..|s|] == t;
      WordPrefix(t, []);
      assert t + [] == t;
      assert t[|t|..] == [];
    }
  }

  /** A quote-free, NUL-free line is split into its words, whatever spaces surround them. */
  lemma {:induction false} PlainTokens(line: seq<char>)
    requires Plain(line)
    ensures Tokens(line) == Lexed(Words(line), false)
  {
    var s := Strip(line);
    PlainStrip(line);
    LexPlain(s, 0);
    assert s[0..] == s;
    PlainWordsStrip(line);
  }

  /** Stripping keeps a line quote-free and NUL-free, and leaves a non-space first byte. */
  lemma PlainStrip(line: seq<char>)
    requires Plain(line)
    ensures Plain(Strip(line)) && (Strip(line) == [] || Strip(line)[0] != ' ')
  {
    var n := LeadingSpaces(line);
    forall j | 0 <= j < |Strip(line)|
      ensures Strip(line)[j] == line[n + j]
    {
    }
  }

  /** Stripping does not change the words. */
  lemma PlainWordsStrip(line: seq<char>)
    ensures Words(Strip(line)) == Words(line)
  {
    StripIdempotent(line);
    WordsSkipSpaces(LeadingSpaces(line), Strip(line));
  }

  // ---------------------------------------------------------------------
  // How quotes are split, as the loop is written

  /** Bytes with no space, quote or NUL: a plain word. */
  predicate PlainWord(w: seq<char>) {
    w != [] && Plain(w) && ' ' !in w
  }

  /** A stretch without events does not move the next event. */
  lemma {:induction false} NextEventSkips(s: seq<char>, from: nat, until: nat)
    requires from <= until <= |s|
    requires forall j :: from <= j < until ==> !IsEvent(s, j)
    ensures NextEvent(s, from) == NextEvent(s, until)
    decreases until - from
  {
    if from < until {
      NextEventSkips(s, from + 1, until);
    }
  }

  /** A plain word at `from`: no event and no space inside it, and it reads back whole. */
  lemma {:induction false} WordAt(s: seq<char>, from: nat, w: seq<char>)
    requires PlainWord(w) && from + |w| <= |s| && s[from..from + |w|] == w
    ensures NextEvent(s, from) == NextEvent(s, from + |w|)
    ensures Find(s, from, ' ') >= from + |w|
    ensures s[from] != NUL && CStringAt(s, from, from + |w|) == w
  {
    forall j | from <= j < from + |w|
      ensures s[j] != ' ' && s[j] != NUL && !IsQuote(s[j])
    {
      assert s[j] == w[j - from];
    }
    assert forall j :: from <= j < from + |w| ==> !IsEvent(s, j);
    NextEventSkips(s, from, from + |w|);
    FindInFirst(s, from, |s|, ' ');
    CStringAtWhole(s, from, from + |w|);
  }

  /** Nothing is left to split at the end of the line. */
  lemma {:induction false} AtEnd(s: seq<char>)
    ensures Lex(s, |s|) == Lexed([], false)
  {
  }

  /** With no event left, the word at `ws` is the last argument. */
  lemma {:induction false} LastWord(s: seq<char>, ws: nat)
    requires ws < |s| && NextEvent(s, ws) == |s| && s[ws] != NUL
    ensures Lex(s, ws) == Lexed([CStringAt(s, ws, |s|)], false)
  {
  }

  /**
   * A word that ends at `e`, followed by the spaces `e..k`: the argument is
   * the word, and splitting goes on after the spaces.
   */
  lemma {:induction false} WordThenSpaces(s: seq<char>, ws: nat, e: nat, k: nat)
    requires ws <= e <= k < |s| && NextEvent(s, ws) == NextEvent(s, e) && Find(s, ws, ' ') >= e
    requires forall j :: e <= j <= k ==> s[j] == ' '
    requires After(s, k) != ' '
    ensures var rest := Lex(s, k + 1);
      Lex(s, ws) == Lexed([CStringAt(s, ws, e)] + rest.tokens, rest.overrun)
  {
    assert forall j :: e <= j < k ==> !IsEvent(s, j) by {
      forall j | e <= j < k
        ensures !IsEvent(s, j)
      {
        assert s[j] == ' ' && s[j + 1] == ' ';
      }
    }
    NextEventSkips(s, e, k);
    assert IsEvent(s, k);
    FindInFirst(s, ws, |s|, ' ');
    assert Find(s, ws, ' ') == e;
  }

  /** A space that is the last of its run, where a word should start, ends an empty argument. */
  lemma {:induction false} SpaceThen(s: seq<char>, k: nat)
    requires k < |s| && s[k] == ' ' && After(s, k) != ' '
    ensures var rest := Lex(s, k + 1);
      Lex(s, k) == Lexed([[]] + rest.tokens, rest.overrun)
  {
    assert IsEvent(s, k);
    assert Find(s, k, ' ') == k;
  }

  /**
   * Bytes `b` at `from` that hold neither `q` nor NUL: the search for `q`
   * passes over them, and the C string there reads them whole.
   */
  lemma {:induction false} Enclosed(s: seq<char>, from: nat, b: seq<char>, q: char)
    requires from + |b| <= |s| && s[from..from + |b|] == b
    requires q !in b && NUL !in b
    ensures Find(s, from, q) >= from + |b|
    ensures from + |b| < |s| && s[from + |b|] == q ==> Find(s, from, q) == from + |b|
    ensures from + |b| == |s| ==> Find(s, from, q) == |s|
    ensures CStringAt(s, from, from + |b|) == b
  {
    forall j | from <= j < from + |b|
      ensures s[j] != q && s[j] != NUL
    {
      assert s[j] == b[j - from];
    }
    FindInFirst(s, from, |s|, q);
    CStringAtWhole(s, from, from + |b|);
  }

  /** A quote not at the start, closed by the same quote, ends the word at `ws`: its body is the argument. */
  lemma {:induction false} QuoteThen(s: seq<char>, ws: nat, k: nat, b: seq<char>)
    requires ws <= k && 0 < k && k + |b| + 1 < |s| && NextEvent(s, ws) == NextEvent(s, k) && IsQuote(s[k])
    requires s[k + 1..k + 1 + |b|] == b && s[k + 1 + |b|] == s[k]
    requires s[k] !in b && NUL !in b
    ensures var rest := Lex(s, k + |b| + 2);
      Lex(s, ws) == Lexed([b] + rest.tokens, rest.overrun)
  {
    ClosedQuote(s, k, b);
    LexAtQuote(s, ws, k);
  }

  /** The quote at `k` encloses `b` and is closed right after it. */
  lemma ClosedQuote(s: seq<char>, k: nat, b: seq<char>)
    requires k + |b| + 1 < |s| && s[k + 1..k + 1 + |b|] == b && s[k + 1 + |b|] == s[k]
    requires s[k] !in b && NUL !in b
    ensures Find(s, k + 1, s[k]) == k + 1 + |b| && CStringAt(s, k + 1, k + 1 + |b|) == b
  {
    Enclosed(s, k + 1, b, s[k]);
  }

  /** A quote not at the start that is never closed: the rest of the line is an argument, and the loop overruns. */
  lemma {:induction false} QuoteUnclosed(s: seq<char>, k: nat, b: seq<char>)
    requires 0 < k < |s| && IsQuote(s[k]) && s[k + 1..] == b
    requires s[k] !in b && NUL !in b
    ensures Lex(s, k) == Lexed([b], true)
  {
    assert IsEvent(s, k) && NextEvent(s, k) == k;
    assert s[k + 1..k + 1 + |b|] == b;
    Enclosed(s, k + 1, b, s[k]);
  }

  /** A line that does not start with a space is not changed by stripping. */
  lemma {:induction false} StripNoSpace(s: seq<char>)
    requires s != [] && s[0] != ' '
    ensures Strip(s) == s
  {
  }

  /** A quote after a space opens an argument that holds its spaces: `w "b"` gives w and b. */
  lemma {:induction false} QuotedArgument(w: seq<char>, q: char, b: seq<char>)
    requires PlainWord(w) && IsQuote(q) && q !in b && NUL !in b
    ensures Tokens(w + [' ', q] + b + [q]) == Lexed([w, b], false)
  {
    var s := w + [' ', q] + b + [q];
    var n := |w|;
    assert s[0] == w[0] && s[0..n] == w && s[n] == ' ' && s[n + 1] == q;
    assert s[n + 2..n + 2 + |b|] == b && s[n + 2 + |b|] == q;
    StripNoSpace(s);
    QuotedArgumentAt(s, w, b);
  }

  /** The same line, given by the positions of its parts. */
  lemma QuotedArgumentAt(s: seq<char>, w: seq<char>, b: seq<char>)
    requires PlainWord(w) && |s| == |w| + |b| + 3 && s[0..|w|] == w && s[|w|] == ' '
    requires IsQuote(s[|w| + 1]) && s[|w| + 2..|w| + 2 + |b|] == b && s[|w| + 2 + |b|] == s[|w| + 1]
    requires s[|w| + 1] !in b && NUL !in b
    ensures Lex(s, 0) == Lexed([w, b], false)
  {
    var n := |w|;
    QuotedLast(s, n + 1, b);
    WordAt(s, 0, w);
    WordThenSpaces(s, 0, n, n);
  }

  /** A closed quote that ends the line is its last argument. */
  lemma QuotedLast(s: seq<char>, k: nat, b: seq<char>)
    requires 0 < k && k + |b| + 2 == |s| && IsQuote(s[k])
    requires s[k + 1..k + 1 + |b|] == b && s[k + 1 + |b|] == s[k]
    requires s[k] !in b && NUL !in b
    ensures Lex(s, k) == Lexed([b], false)
  {
    QuoteThen(s, k, k, b);
    AtEnd(s);
  }

  /** A plain word that runs to the end of the line is the last argument. */
  lemma {:induction false} FinalWord(s: seq<char>, ws: nat, v: seq<char>)
    requires PlainWord(v) && ws + |v| == |s| && s[ws..] == v
    ensures Lex(s, ws) == Lexed([v], false)
  {
    assert s[ws..ws + |v|] == v;
    WordAt(s, ws, v);
    LastWord(s, ws);
  }

  /** A plain word at `ws` followed by the spaces up to `k`: it is the next argument. */
  lemma {:induction false} WordThenRun(s: seq<char>, ws: nat, w: seq<char>, k: nat)
    requires PlainWord(w) && ws + |w| <= k < |s| && s[ws..ws + |w|] == w
    requires forall j :: ws + |w| <= j <= k ==> s[j] == ' '
    requires After(s, k) != ' '
    ensures var rest := Lex(s, k + 1);
      Lex(s, ws) == Lexed([w] + rest.tokens, rest.overrun)
  {
    WordAt(s, ws, w);
    WordThenSpaces(s, ws, ws + |w|, k);
  }

  /** Where the parts of `w "b" v` lie in `s`: the word, a space, the quoted body, a space, the word. */
  predicate QuotedThenWordAt(s: seq<char>, w: seq<char>, b: seq<char>, v: seq<char>) {
    var n, c := |w|, |w| + 2 + |b|;
    && PlainWord(w) && PlainWord(v)
    && |s| == c + 2 + |v| && s[0..n] == w && s[n] == ' ' && IsQuote(s[n + 1])
    && s[n + 2..c] == b && s[c] == s[n + 1] && s[n + 1] !in b && NUL !in b
    && s[c + 1] == ' ' && s[c + 2..] == v
  }

  lemma {:induction false} QuotedThenWordLast(s: seq<char>, w: seq<char>, b: seq<char>, v: seq<char>)
    requires QuotedThenWordAt(s, w, b, v)
    ensures Lex(s, |w| + |b| + 4) == Lexed([v], false)
  {
    FinalWord(s, |w| + |b| + 4, v);
  }

  lemma {:induction false} QuotedThenWordSpace(s: seq<char>, w: seq<char>, b: seq<char>, v: seq<char>)
    requires QuotedThenWordAt(s, w, b, v)
    ensures var rest := Lex(s, |w| + |b| + 4);
      Lex(s, |w| + |b| + 3) == Lexed([[]] + rest.tokens, rest.overrun)
  {
    var c := |w| + 2 + |b|;
    assert c + 2 < |s| && s[c + 1] == ' ';
    assert s[c + 2] == v[0] && v[0] in v;
    SpaceThen(s, c + 1);
  }

  lemma {:induction false} QuotedThenWordQuote(s: seq<char>, w: seq<char>, b: seq<char>, v: seq<char>)
    requires QuotedThenWordAt(s, w, b, v)
    ensures var rest := Lex(s, |w| + |b| + 3);
      Lex(s, |w| + 1) == Lexed([b] + rest.tokens, rest.overrun)
  {
    QuoteThen(s, |w| + 1, |w| + 1, b);
  }

  lemma {:induction false} QuotedThenWordFirst(s: seq<char>, w: seq<char>, b: seq<char>, v: seq<char>)
    requires QuotedThenWordAt(s, w, b, v)
    ensures var rest := Lex(s, |w| + 1);
      Lex(s, 0) == Lexed([w] + rest.tokens, rest.overrun)
  {
    WordThenRun(s, 0, w, |w|);
  }

  /** The split of `w "b" v`, given where its parts lie. */
  lemma {:induction false} SplitQuotedThenWord(s: seq<char>, w: seq<char>, b: seq<char>, v: seq<char>)
    requires QuotedThenWordAt(s, w, b, v)
    ensures Lex(s, 0) == Lexed([w, b, [], v], false)
  {
    QuotedThenWordLast(s, w, b, v);
    QuotedThenWordSpace(s, w, b, v);
    QuotedThenWordQuote(s, w, b, v);
    QuotedThenWordFirst(s, w, b, v);
  }

  /**
   * A space right after a closing quote is the last space of a run, and it
   * ends the empty word that starts there: `w "b" v` gives w, b, the empty
   * argument, then v.
   */
  lemma {:induction false} SpaceAfterClosingQuote(w: seq<char>, q: char, b: seq<char>, v: seq<char>)
    requires PlainWord(w) && PlainWord(v) && IsQuote(q) && q !in b && NUL !in b
    ensures Tokens(w + [' ', q] + b + [q, ' '] + v) == Lexed([w, b, [], v], false)
  {
    var s := w + [' ', q] + b + [q, ' '] + v;
    var n, c := |w|, |w| + 2 + |b|;
    assert s[0] == w[0] && s[0..n] == w && s[n] == ' ' && s[n + 1] == q;
    assert s[n + 2..c] == b && s[c] == q && s[c + 1] == ' ' && s[c + 2..] == v;
    StripNoSpace(s);
    SplitQuotedThenWord(s, w, b, v);
  }

  /** A quote in the middle of a word drops the text before it: `w"b"` gives b alone. */
  lemma {:induction false} TextBeforeQuoteDropped(w: seq<char>, q: char, b: seq<char>)
    requires PlainWord(w) && IsQuote(q) && q !in b && NUL !in b
    ensures Tokens(w + [q] + b + [q]) == Lexed([b], false)
  {
    var s := w + [q] + b + [q];
    var n := |w|;
    assert s[0] == w[0] && s[0..n] == w && s[n] == q;
    assert s[n + 1..n + 1 + |b|] == b && s[n + 1 + |b|] == q;
    StripNoSpace(s);
    TextBeforeQuoteDroppedAt(s, w, b);
  }

  /** The same line, given by the positions of its parts. */
  lemma TextBeforeQuoteDroppedAt(s: seq<char>, w: seq<char>, b: seq<char>)
    requires PlainWord(w) && |s| == |w| + |b| + 2 && s[0..|w|] == w
    requires IsQuote(s[|w|]) && s[|w| + 1..|w| + 1 + |b|] == b && s[|w| + 1 + |b|] == s[|w|]
    requires s[|w|] !in b && NUL !in b
    ensures Lex(s, 0) == Lexed([b], false)
  {
    WordAt(s, 0, w);
    QuoteThen(s, 0, |w|, b);
    AtEnd(s);
  }

  /**
   * A quote that is never closed takes the rest of the line; the source
   * then reads past the terminator, which is reported as an overrun.
   */
  lemma {:induction false} UnterminatedQuote(w: seq<char>, q: char, b: seq<char>)
    requires PlainWord(w) && IsQuote(q) && q !in b && NUL !in b
    ensures Tokens(w + [' ', q] + b) == Lexed([w, b], true)
  {
    var s := w + [' ', q] + b;
    var n := |w|;
    assert s[0] == w[0] && s[0..n] == w && s[n] == ' ' && s[n + 1] == q;
    assert s[n + 2..] == b;
    StripNoSpace(s);
    UnterminatedQuoteAt(s, w, b);
  }

  /** The same line, given by the positions of its parts. */
  lemma UnterminatedQuoteAt(s: seq<char>, w: seq<char>, b: seq<char>)
    requires PlainWord(w) && |s| == |w| + |b| + 2 && s[0..|w|] == w && s[|w|] == ' '
    requires IsQuote(s[|w| + 1]) && s[|w| + 2..] == b && s[|w| + 1] !in b && NUL !in b
    ensures Lex(s, 0) == Lexed([w, b], true)
  {
    var n := |w|;
    WordAt(s, 0, w);
    WordThenSpaces(s, 0, n, n);
    QuoteUnclosed(s, n + 1, b);
  }

  /** A quote at the start of the line is not special: it stays in the first word. */
  lemma {:induction false} QuoteAtStartIsLiteral(q: char, w: seq<char>)
    requires IsQuote(q) && PlainWord(w)
    ensures Tokens([q] + w) == Lexed([[q] + w], false)
  {
    var s := [q] + w;
    assert s[1..1 + |w|] == w;
    StripNoSpace(s);
    WordAt(s, 1, w);
    assert !IsEvent(s, 0);
    NextEventSkips(s, 0, 1);
    assert NUL !in s by {
      forall j | 0 <= j < |s|
        ensures s[j] != NUL
      {
        if j > 0 {
          assert s[j] == w[j - 1];
        }
      }
    }
    CStringAtWhole(s, 0, |s|);
    assert s[0..|s|] == s;
    LastWord(s, 0);
  }

  /** `echo "hello world" there`: the quoted words stay together, and an empty argument follows them. */
  lemma {:induction false} EchoQuoted()
    ensures Tokens("echo \"hello world\" there") == Lexed(["echo", "hello world", "", "there"], false)
  {
    assert "echo" + [' ', '"'] + "hello world" + ['"', ' '] + "there" == "echo \"hello world\" there";
    assert PlainWord("echo") && PlainWord("there") && '"' !in "hello world" && NUL !in "hello world";
    SpaceAfterClosingQuote("echo", '"', "hello world", "there");
  }

  /**
   * Two words with spaces around and between them, as in `  ls   -la `:
   * runs of spaces separate words, and neither the leading nor the trailing
   * ones add an argument.
   */
  lemma {:induction false} SpacedWords(m: nat, a: seq<char>, k: nat, b: seq<char>, j: nat)
    requires PlainWord(a) && PlainWord(b) && k > 0
    ensures Tokens(Spaces(m) + a + Spaces(k) + b + Spaces(j)) == Lexed([a, b], false)
  {
    var tail := b + Spaces(j);
    var line := Spaces(m) + (a + Spaces(k) + tail);
    assert line == Spaces(m) + a + Spaces(k) + b + Spaces(j);
    assert Plain(line) by {
      forall i | 0 <= i < |line|
        ensures line[i] != NUL && !IsQuote(line[i])
      {
        if i < m {
        } else if i < m + |a| {
          assert line[i] == a[i - m];
        } else if i < m + |a| + k {
        } else if i < m + |a| + k + |b| {
          assert line[i] == b[i - m - |a| - k];
        }
      }
    }
    PlainTokens(line);
    WordsSkipSpaces(m, a + Spaces(k) + tail);
    WordsSplit(a, k, tail);
    if j > 0 {
      assert tail == b + Spaces(j) + [];
      WordsSplit(b, j, []);
    } else {
      assert tail == b + [];
      WordPrefix(b, []);
      assert tail[|b|..] == [];
    }
  }
}
