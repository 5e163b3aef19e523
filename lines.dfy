/** The line structure of a byte buffer, as `str::lines` sees it: a line ends
    at a '\n' (which is not part of it) or at the end of the buffer, and a
    final '\n' does not open an empty last line. Lines are located by the
    offset at which they start, so that "which lines does a chunk yield" can
    be stated as a range of start offsets. */
module Lines {
  import opened Bytes

  /** The index of the first '\n' at or after `at`, or |b| when there is none
      (that no '\n' comes earlier is lemma `NoNewlineBefore`). */
  function NextNewline(b: seq<byte>, at: nat): (e: nat)
    requires at <= |b|
    ensures at <= e <= |b|
    ensures e < |b| ==> b[e] == NL
    decreases |b| - at
  {
    if at == |b| || b[at] == NL then at else NextNewline(b, at + 1)
  }

  /** No '\n' lies between `at` and the one `NextNewline` finds. */
  lemma {:induction false} NoNewlineBefore(b: seq<byte>, at: nat)
    requires at <= |b|
    ensures forall j :: at <= j < NextNewline(b, at) ==> b[j] != NL
    decreases |b| - at
  {
    if at < |b| && b[at] != NL {
      NoNewlineBefore(b, at + 1);
    }
  }

  /** The first '\n' at or after `at` is the one at `p` (or there is none,
      when p == |b|) if no byte in between is a '\n'. */
  lemma {:induction false} NextNewlineIs(b: seq<byte>, at: nat, p: nat)
    requires at <= p <= |b|
    requires p < |b| ==> b[p] == NL
    requires forall j :: at <= j < p ==> b[j] != NL
    ensures NextNewline(b, at) == p
    decreases p - at
  {
    if at < p {
      NextNewlineIs(b, at + 1, p);
    }
  }

  /** A list of lines. Lists, rather than sequences, keep the reasoning
      about concatenations of line lists structural. */
  datatype List<T> = Nil | Cons(head: T, tail: List<T>)

  /** Concatenation. */
  function Cat<T>(a: List<T>, c: List<T>): (r: List<T>)
    ensures a == Nil ==> r == c
    ensures c == Nil ==> r == a
  {
    match a
    case Nil => c
    case Cons(x, t) => Cons(x, Cat(t, c))
  }

  function Length<T>(a: List<T>): nat
  {
    match a
    case Nil => 0
    case Cons(_, t) => 1 + Length(t)
  }

  lemma {:induction false} LengthCat<T>(a: List<T>, c: List<T>)
    ensures Length(Cat(a, c)) == Length(a) + Length(c)
  {
    match a
    case Nil =>
    case Cons(_, t) => LengthCat(t, c);
  }

  /** `str::lines` of b[at..], `at` being a line start. */
  function LinesFrom(b: seq<byte>, at: nat): List<seq<byte>>
    requires at <= |b|
    decreases |b| - at
  {
    if at == |b| then Nil
    else
      var e := NextNewline(b, at);
      Cons(b[at..e], if e == |b| then Nil else LinesFrom(b, e + 1))
  }

  /** `str::lines` of the whole buffer. */
  function AllLines(b: seq<byte>): List<seq<byte>>
  {
    LinesFrom(b, 0)
  }

  /** The lines of b[at..] whose start offset (in `b`) lies in [lo, hi], in
      buffer order. */
  function LinesIn(b: seq<byte>, at: nat, lo: int, hi: int): List<seq<byte>>
    requires at <= |b|
    decreases |b| - at
  {
    if at == |b| then Nil
    else
      var e := NextNewline(b, at);
      var rest := if e == |b| then Nil else LinesIn(b, e + 1, lo, hi);
      if lo <= at <= hi then Cons(b[at..e], rest) else rest
  }

  /** Every line ends at a '\n' or at the end of the buffer, so b[at..]
      holds at most |b| - at lines. */
  lemma {:induction false} LinesInLength(b: seq<byte>, at: nat, lo: int, hi: int)
    requires at <= |b|
    ensures Length(LinesIn(b, at, lo, hi)) <= |b| - at
    decreases |b| - at
  {
    if at < |b| {
      var e := NextNewline(b, at);
      if e < |b| {
        LinesInLength(b, e + 1, lo, hi);
      }
    }
  }

  /** Every line of b[at..] starts at `at` or later. */
  lemma {:induction false} LinesInBelow(b: seq<byte>, at: nat, lo: int, hi: int)
    requires at <= |b| && hi < at
    ensures LinesIn(b, at, lo, hi) == Nil
    decreases |b| - at
  {
    if at < |b| {
      var e := NextNewline(b, at);
      if e < |b| {
        LinesInBelow(b, e + 1, lo, hi);
      }
    }
  }

  /** Every line of b[at..] starts before |b|. */
  lemma {:induction false} LinesInAll(b: seq<byte>, at: nat, lo: int, hi: int)
    requires at <= |b| && lo <= at && |b| <= hi
    ensures LinesIn(b, at, lo, hi) == LinesFrom(b, at)
    decreases |b| - at
  {
    if at < |b| {
      var e := NextNewline(b, at);
      if e < |b| {
        LinesInAll(b, e + 1, lo, hi);
      }
    }
  }

  /** Two adjacent ranges of starts together hold the lines of their union:
      no line is in both, none is lost, and the order is kept. */
  lemma {:induction false} LinesInConcat(b: seq<byte>, at: nat, lo: int, m: int, hi: int)
    requires at <= |b|
    requires lo <= m + 1 && m <= hi
    ensures Cat(LinesIn(b, at, lo, m), LinesIn(b, at, m + 1, hi)) == LinesIn(b, at, lo, hi)
    decreases |b| - at
  {
    if at < |b| {
      var e := NextNewline(b, at);
      if e < |b| {
        LinesInConcat(b, e + 1, lo, m, hi);
        if m < at {
          LinesInBelow(b, e + 1, lo, m);
        }
      }
    }
  }

  /** The lines of b[x..] that start after `o` are the lines of the buffer
      after the first '\n' at or after `o`. */
  lemma {:induction false} LinesAfterNewline(b: seq<byte>, x: nat, o: nat, hi: int)
    requires x <= o <= |b| && NextNewline(b, o) < |b|
    ensures LinesIn(b, x, o + 1, hi) == LinesIn(b, NextNewline(b, o) + 1, o + 1, hi)
    decreases |b| - x
  {
    var e := NextNewline(b, x);
    NoNewlineBefore(b, x);
    assert e <= NextNewline(b, o);
    if e + 1 <= o {
      LinesAfterNewline(b, e + 1, o, hi);
    } else {
      NextNewlineIs(b, o, e);
    }
  }

  /** Searching a suffix for '\n' is searching the buffer from a later offset. */
  lemma {:induction false} NextNewlineOfSuffix(b: seq<byte>, o: nat, j: nat)
    requires o + j <= |b|
    ensures NextNewline(b[o..], j) == NextNewline(b, o + j) - o
    decreases |b| - o - j
  {
    if o + j < |b| && b[o + j] != NL {
      NextNewlineOfSuffix(b, o, j + 1);
    }
  }
}
