/**
 * Bytes, buffer sizes and C-string reading shared by both revisions of the
 * shell (JBash.c and MyShell.c). A byte of the terminal stream is a `char`.
 */
module Chars {

  const NUL: char := '\0'
  const NEWLINE: char := '\n'
  const TAB: char := '\t'
  const BACKSPACE: char := 8 as char
  const DEL: char := 127 as char
  const ESC: char := 27 as char
  const CTRL_C: char := 3 as char

  /** Initial capacity of the input string, in bytes. */
  const STR_BUFFER: nat := 16
  /** Initial capacity of the argument vector, in pointers. */
  const CMD_LINE_BUFFER: nat := 16

  /** The two revisions of `parse()`: they differ in Ctrl-C handling and in how backspace reprints. */
  datatype Shell = JBash | MyShell

  datatype Option<T> = None | Some(value: T)

  predicate IsQuote(c: char) {
    c == '"' || c == '\''
  }

  /** The first `c` in `s[from..end]`, or `end` when there is none. */
  function FindIn(s: seq<char>, from: nat, end: nat, c: char): (k: nat)
    requires from <= end <= |s|
    ensures from <= k <= end
    decreases end - from
  {
    if from == end then end
    else if s[from] == c then from
    else FindIn(s, from + 1, end, c)
  }

  /** `FindIn` finds the first `c`: there is none before it, and it is one unless it is `end`. */
  lemma {:induction false} FindInFirst(s: seq<char>, from: nat, end: nat, c: char)
    requires from <= end <= |s|
    ensures var k := FindIn(s, from, end, c);
      && (forall j :: from <= j < k ==> s[j] != c)
      && (k < end ==> s[k] == c)
    decreases end - from
  {
    if from < end && s[from] != c {
      FindInFirst(s, from + 1, end, c);
    }
  }

  /** Conversely, a position with no `c` before it that holds `c` (or is `end`) is what `FindIn` returns. */
  lemma {:induction false} FindInIs(s: seq<char>, from: nat, end: nat, c: char, k: nat)
    requires from <= k <= end <= |s|
    requires forall j :: from <= j < k ==> s[j] != c
    requires k < end ==> s[k] == c
    ensures FindIn(s, from, end, c) == k
    decreases end - from
  {
    if from < k {
      FindInIs(s, from + 1, end, c, k);
    }
  }

  /** Two strings that agree on `[from, end)` give the same search result there. */
  lemma {:induction false} FindInAgree(s: seq<char>, t: seq<char>, from: nat, end: nat, c: char)
    requires from <= end <= |s| && end <= |t|
    requires forall j :: from <= j < end ==> s[j] == t[j]
    ensures FindIn(s, from, end, c) == FindIn(t, from, end, c)
    decreases end - from
  {
    if from < end && s[from] != c {
      FindInAgree(s, t, from + 1, end, c);
    }
  }

  /** The first `c` at or after `from`, or |s| when there is none. */
  function Find(s: seq<char>, from: nat, c: char): nat
    requires from <= |s|
  {
    FindIn(s, from, |s|, c)
  }

  /**
   * The C string that starts at `from` when a terminator has been written
   * at `end`: the bytes up to the first NUL before `end`.
   */
  function CStringAt(s: seq<char>, from: nat, end: nat): seq<char>
    requires from <= end <= |s|
  {
    s[from..FindIn(s, from, end, NUL)]
  }

  /** What a `char *` designates: the bytes before the first NUL. */
  function TakeUntilNul(s: seq<char>): (r: seq<char>)
    ensures r <= s && NUL !in r
    ensures |r| < |s| ==> s[|r|] == NUL
  {
    if s == [] || s[0] == NUL then [] else [s[0]] + TakeUntilNul(s[1..])
  }

  /** A NUL ends the C string: nothing after it is read. */
  lemma {:induction false} TakeUntilNulStops(s: seq<char>, rest: seq<char>)
    requires NUL in s || (rest != [] && rest[0] == NUL)
    ensures TakeUntilNul(s + rest) == TakeUntilNul(s)
  {
    if s == [] {
    } else if s[0] == NUL {
    } else {
      assert (s + rest)[1..] == s[1..] + rest;
      TakeUntilNulStops(s[1..], rest);
    }
  }

  /** A C string with no NUL in its bytes is read whole. */
  lemma {:induction false} TakeUntilNulWhole(s: seq<char>)
    requires NUL !in s
    ensures TakeUntilNul(s) == s
  {
    if s != [] {
      TakeUntilNulWhole(s[1..]);
    }
  }

  /** A stretch without NUL bytes is read whole. */
  lemma CStringAtWhole(s: seq<char>, from: nat, end: nat)
    requires from <= end <= |s|
    requires forall j :: from <= j < end ==> s[j] != NUL
    ensures CStringAt(s, from, end) == s[from..end]
  {
    FindInIs(s, from, end, NUL, end);
  }
}

/** C's `memmove`, used for every in-place shift of the input string. */
module Memory {

  /** `memmove(&a[dst], &a[src], count)`: correct for overlapping ranges in either direction. */
  method MemMove<T>(a: array<T>, dst: nat, src: nat, count: nat)
    requires dst + count <= a.Length && src + count <= a.Length
    modifies a
    ensures a[..] == Moved(old(a[..]), dst, src, count)
  {
    if dst <= src {
      var i := 0;
      while i < count
        invariant 0 <= i <= count
        invariant forall k :: 0 <= k < a.Length ==>
          a[k] == if dst <= k < dst + i then old(a[k - dst + src]) else old(a[k])
      {
        a[dst + i] := a[src + i];
        i := i + 1;
      }
    } else {
      var i := count;
      while i > 0
        invariant 0 <= i <= count
        invariant forall k :: 0 <= k < a.Length ==>
          a[k] == if dst + i <= k < dst + count then old(a[k - dst + src]) else old(a[k])
      {
        i := i - 1;
        a[dst + i] := a[src + i];
      }
    }
    assert a[..] == Moved(old(a[..]), dst, src, count);
  }

  /** The bytes `s` holds once `count` of them are copied from `src` to `dst`, as if through a temporary. */
  function Moved<T>(s: seq<T>, dst: nat, src: nat, count: nat): (r: seq<T>)
    requires dst + count <= |s| && src + count <= |s|
    ensures |r| == |s|
    ensures forall k :: 0 <= k < |s| ==> r[k] == if dst <= k < dst + count then s[k - dst + src] else s[k]
  {
    seq(|s|, k requires 0 <= k < |s| => if dst <= k < dst + count then s[k - dst + src] else s[k])
  }

  /**
   * `realloc_buffer`: the capacity doubles and the old contents are kept.
   * The new cells are uninitialised in C; here they hold `fill`.
   */
  method Grow<T>(a: array<T>, fill: T) returns (b: array<T>)
    ensures fresh(b) && b.Length == 2 * a.Length
    ensures b[..a.Length] == a[..]
    ensures forall k :: a.Length <= k < b.Length ==> b[k] == fill
  {
    b := new T[2 * a.Length](_ => fill);
    forall k | 0 <= k < a.Length {
      b[k] := a[k];
    }
  }
}
