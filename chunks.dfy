/** The `Chunk` line iterator of src/chunks.rs. A chunk is handed the bytes
    from its nominal offset to the end of the buffer, a `first` flag and the
    chunk size. On its first call a non-first chunk drops everything up to and
    including the first '\n' (that line belongs to the previous chunk); it
    then yields whole lines while its running byte position has not passed
    the chunk size, and once it has, it stops for good. */
module Chunks {
  import opened Bytes
  import opened Lines

  /** The iterator's three states. `Running` holds the not yet split rest of
      the bytes (what `str::Lines` still has to give) and the byte position,
      counted from the chunk's nominal offset, of the next line. */
  datatype State =
    | Start(bytes: seq<byte>, first: bool)
    | Running(rest: seq<byte>, position: nat)
    | End

  /** Leaving `Start` indexes `bytes[0]` until it finds a '\n': a non-first
      chunk with no '\n' in its bytes panics. */
  predicate CanStart(st: State)
  {
    st.Start? && !st.first ==> NL in st.bytes
  }

  /** The first call's preamble: the bytes lines are read from, and the
      position the first of them starts at. */
  function Skip(bytes: seq<byte>, first: bool): (r: (seq<byte>, nat))
    requires first || NL in bytes
    ensures first ==> r == (bytes, 0)
    ensures !first ==>
      0 < r.1 <= |bytes| && bytes[r.1 - 1] == NL && NL !in bytes[..r.1 - 1] &&
      r.0 == bytes[r.1..]
  {
    if first then (bytes, 0)
    else
      var k := NextNewline(bytes, 0);
      NoNewlineBefore(bytes, 0);
      assert NL !in bytes[..k] by {
        forall j | 0 <= j < k ensures bytes[..k][j] != NL { }
      }
      (bytes[k + 1..], k + 1)
  }

  /** One step of `str::Lines`: the line up to the first '\n' (or the end)
      and what follows that '\n'. */
  function NextLine(rest: seq<byte>): (r: (seq<byte>, seq<byte>))
    requires rest != []
    ensures |r.1| < |rest|
  {
    var e := NextNewline(rest, 0);
    if e == |rest| then (rest, []) else (rest[..e], rest[e + 1..])
  }

  /** The line `NextLine` gives holds no '\n', and the bytes are the line,
      then its '\n' and the rest, or the line alone when it is the last. */
  lemma {:induction false} NextLineSplits(rest: seq<byte>)
    requires rest != []
    ensures NL !in NextLine(rest).0
    ensures rest == NextLine(rest).0 + [NL] + NextLine(rest).1 ||
            (rest == NextLine(rest).0 && NextLine(rest).1 == [])
  {
    var e := NextNewline(rest, 0);
    NoNewlineBefore(rest, 0);
    assert NL !in rest[..e] by {
      forall j | 0 <= j < e ensures rest[..e][j] != NL { }
    }
    if e < |rest| {
      assert rest == rest[..e] + [NL] + rest[e + 1..];
    }
  }

  /** `next()` from the point where the bound is checked. */
  function Advance(rest: seq<byte>, position: nat, chunkSize: nat): (State, Option<seq<byte>>)
  {
    if position > chunkSize then (End, None)
    else if rest == [] then (Running(rest, position), None)
    else
      var next := NextLine(rest);
      (Running(next.1, position + |next.0| + 1), Some(next.0))
  }

  /** `next()` as a function of the state: the new state and the item. */
  function Step(st: State, chunkSize: nat): (State, Option<seq<byte>>)
    requires CanStart(st)
  {
    match st
    case Start(bytes, first) =>
      var skipped := Skip(bytes, first);
      Advance(skipped.0, skipped.1, chunkSize)
    case Running(rest, position) => Advance(rest, position, chunkSize)
    case End => (End, None)
  }

  /** The lines still to come from `rest` read at `position`. */
  function Bounded(rest: seq<byte>, position: nat, chunkSize: nat): List<seq<byte>>
    decreases |rest|
  {
    if position > chunkSize || rest == [] then Nil
    else
      var next := NextLine(rest);
      Cons(next.0, Bounded(next.1, position + |next.0| + 1, chunkSize))
  }

  /** Bounded, one line at a time. */
  lemma {:induction false} BoundedStep(rest: seq<byte>, position: nat, chunkSize: nat)
    requires position <= chunkSize && rest != []
    ensures Bounded(rest, position, chunkSize) ==
      Cons(NextLine(rest).0, Bounded(NextLine(rest).1, position + |NextLine(rest).0| + 1, chunkSize))
  {
  }

  /** Every line the iterator in state `st` will still yield, in order. */
  function Pending(st: State, chunkSize: nat): List<seq<byte>>
    requires CanStart(st)
  {
    match st
    case Start(bytes, first) =>
      var skipped := Skip(bytes, first);
      Bounded(skipped.0, skipped.1, chunkSize)
    case Running(rest, position) => Bounded(rest, position, chunkSize)
    case End => Nil
  }

  /** All the lines a fresh chunk yields. */
  function ChunkLines(bytes: seq<byte>, first: bool, chunkSize: nat): List<seq<byte>>
    requires first || NL in bytes
  {
    Pending(Start(bytes, first), chunkSize)
  }

  /** One `next()` yields the first pending line, and afterwards exactly the
      remaining ones are pending; with nothing pending it yields `None` and
      nothing becomes pending. */
  lemma {:induction false} StepYieldsPending(st: State, chunkSize: nat)
    requires CanStart(st)
    ensures CanStart(Step(st, chunkSize).0)
    ensures Pending(st, chunkSize) == Nil ==>
      Step(st, chunkSize).1 == None && Pending(Step(st, chunkSize).0, chunkSize) == Nil
    ensures Pending(st, chunkSize).Cons? ==>
      Step(st, chunkSize).1 == Some(Pending(st, chunkSize).head) &&
      Pending(Step(st, chunkSize).0, chunkSize) == Pending(st, chunkSize).tail
  {
  }

  /** The position a `next()` checks against the chunk size. */
  function CheckedPosition(st: State): nat
    requires CanStart(st) && !st.End?
  {
    match st
    case Start(bytes, first) => Skip(bytes, first).1
    case Running(_, position) => position
  }

  /** The bound is checked before a line is read: once the position is past
      the chunk size the iterator ends and yields nothing, and otherwise a
      line is yielded whole, however far it runs past the chunk size, and the
      position advances by its length plus one for its '\n'. `End` is final. */
  lemma {:induction false} StepBound(st: State, chunkSize: nat)
    requires CanStart(st)
    ensures st.End? ==> Step(st, chunkSize) == (End, None)
    ensures !st.End? && CheckedPosition(st) > chunkSize ==> Step(st, chunkSize) == (End, None)
    ensures !st.End? && Step(st, chunkSize).1.Some? ==>
      var line := Step(st, chunkSize).1.value;
      CheckedPosition(st) <= chunkSize && NL !in line &&
      Step(st, chunkSize).0.Running? &&
      Step(st, chunkSize).0.position == CheckedPosition(st) + |line| + 1
  {
    if !st.End? {
      var rest := if st.Start? then Skip(st.bytes, st.first).0 else st.rest;
      if rest != [] {
        NextLineSplits(rest);
      }
    }
  }

  /** The loop of a non-first chunk's first call: it steps over the bytes
      up to and including the first '\n', counting them. */
  method SkipFirstLine(bytes: seq<byte>) returns (rest: seq<byte>, position: nat)
    requires NL in bytes
    ensures (rest, position) == Skip(bytes, false)
  {
    rest, position := bytes, 0;
    while rest[0] != NL
      invariant position <= |bytes| && rest == bytes[position..]
      invariant NL in rest
      invariant forall j :: 0 <= j < position ==> bytes[j] != NL
      decreases |rest|
    {
      rest, position := rest[1..], position + 1;
    }
    NextNewlineIs(bytes, 0, position);
    rest, position := rest[1..], position + 1;
  }

  /** The iterator of src/chunks.rs. */
  class Chunk {
    const chunkSize: nat
    var state: State

    ghost predicate Valid()
      reads this
    {
      CanStart(state)
    }

    /** The lines this chunk will still yield. */
    ghost function Remaining(): List<seq<byte>>
      reads this
      requires Valid()
    {
      Pending(state, chunkSize)
    }

    constructor (bytes: seq<byte>, first: bool, chunkSize: nat)
      ensures this.chunkSize == chunkSize && state == Start(bytes, first)
      ensures Valid() <==> first || NL in bytes
      ensures Valid() ==> Remaining() == ChunkLines(bytes, first, chunkSize)
    {
      this.chunkSize := chunkSize;
      state := Start(bytes, first);
    }

    method Next() returns (line: Option<seq<byte>>)
      requires Valid()
      modifies this
      ensures Valid()
      ensures (state, line) == Step(old(state), chunkSize)
      ensures old(Remaining()) == Nil ==> line == None && Remaining() == Nil
      ensures old(Remaining()).Cons? ==>
        line == Some(old(Remaining()).head) && Remaining() == old(Remaining()).tail
    {
      ghost var st0 := state;
      StepYieldsPending(st0, chunkSize);
      var rest: seq<byte>;
      var position: nat;
      match state {
        case End =>
          return None;
        case Start(bytes, first) =>
          if first {
            rest, position := bytes, 0;
          } else {
            rest, position := SkipFirstLine(bytes);
          }
          state := Running(rest, position);
        case Running(r, p) =>
          rest, position := r, p;
      }
      assert Step(st0, chunkSize) == Advance(rest, position, chunkSize);
      if position > chunkSize {
        state := End;
        return None;
      }
      if rest == [] {
        // `lines.next()` is exhausted; the iterator stays in `Running`
        return None;
      }
      var next := NextLine(rest);
      state := Running(next.1, position + |next.0| + 1);
      line := Some(next.0);
    }
  }

  /** The line of b read at offset `at` runs to the next '\n'. */
  lemma {:induction false} NextLineAt(b: seq<byte>, at: nat)
    requires at < |b|
    ensures var e := NextNewline(b, at);
      NextLine(b[at..]) == (b[at..e], if e == |b| then [] else b[e + 1..])
  {
    var e := NextNewline(b, at);
    var bytes := b[at..];
    NextNewlineOfSuffix(b, at, 0);
    assert NextNewline(bytes, 0) == e - at;
    if e == |b| {
      assert bytes == b[at..e];
    } else {
      assert bytes[..e - at] == b[at..e];
      assert bytes[e - at + 1..] == b[e + 1..];
    }
  }

  /** The first line read at offset `at` when the bound allows it. */
  lemma {:induction false} BoundedAt(b: seq<byte>, o: nat, at: nat, chunkSize: nat,
                                     e: nat, line: seq<byte>, tail: seq<byte>)
    requires o <= at < |b| && at - o <= chunkSize && e == NextNewline(b, at)
    requires line == b[at..e] && tail == (if e == |b| then [] else b[e + 1..])
    ensures Bounded(b[at..], at - o, chunkSize) == Cons(line, Bounded(tail, e + 1 - o, chunkSize))
  {
    var rest := b[at..];
    NextLineIs(rest, line, tail, b, at, e);
    var lines := Bounded(rest, at - o, chunkSize);
    BoundedStepIs(lines, rest, at - o, chunkSize, line, tail, e + 1 - o);
  }

  /** `NextLineAt`, its parts held in variables. */
  lemma {:induction false} NextLineIs(rest: seq<byte>, line: seq<byte>, tail: seq<byte>, b: seq<byte>, at: nat, e: nat)
    requires at < |b| && e == NextNewline(b, at)
    requires rest == b[at..] && line == b[at..e] && tail == (if e == |b| then [] else b[e + 1..])
    ensures rest != [] && NextLine(rest) == (line, tail)
  {
    NextLineAt(b, at);
  }

  /** `BoundedStep`, its parts held in variables. */
  lemma {:induction false} BoundedStepIs(lines: List<seq<byte>>, rest: seq<byte>, position: nat, chunkSize: nat,
                                         line: seq<byte>, tail: seq<byte>, next: nat)
    requires position <= chunkSize && rest != [] && NextLine(rest) == (line, tail)
    requires lines == Bounded(rest, position, chunkSize) && next == position + |line| + 1
    ensures lines == Cons(line, Bounded(tail, next, chunkSize))
  {
    BoundedStep(rest, position, chunkSize);
  }

  /** Reading `b` from offset `at`, with positions counted from `o` and the
      bound `chunkSize`, yields exactly the lines of b[at..] that start at
      or before o + chunkSize. */
  lemma {:induction false} BoundedLines(b: seq<byte>, o: nat, at: nat, lo: int, chunkSize: nat)
    requires o <= at <= |b| && lo <= at
    ensures Bounded(b[at..], at - o, chunkSize) == LinesIn(b, at, lo, o + chunkSize)
    decreases |b| - at
  {
    if at == |b| {
      assert b[at..] == [];
    } else if at - o > chunkSize {
      LinesInBelow(b, at, lo, o + chunkSize);
    } else {
      var e := NextNewline(b, at);
      var tail := if e == |b| then [] else b[e + 1..];
      BoundedAt(b, o, at, chunkSize, e, b[at..e], tail);
      if e < |b| {
        BoundedLines(b, o, e + 1, lo, chunkSize);
      } else {
        assert Bounded([], e + 1 - o, chunkSize) == Nil;
      }
    }
  }

  /** The partition property of a single chunk. Chunk 0 yields exactly the
      lines of the buffer that start in [0, chunkSize]; a non-first chunk at
      offset o yields exactly the lines that start in (o, o + chunkSize].
      (Line starts are counted as `position` counts them, which assumes no
      '\r' before a '\n'.) */
  lemma {:induction false} ChunkWindow(b: seq<byte>, o: nat, first: bool, chunkSize: nat)
    requires o <= |b|
    requires first ==> o == 0
    requires !first ==> NL in b[o..]
    ensures ChunkLines(b[o..], first, chunkSize) ==
      LinesIn(b, 0, if first then 0 else o + 1, o + chunkSize)
  {
    if first {
      FirstChunkLines(b, chunkSize);
    } else {
      LaterChunkLines(b, o, chunkSize);
    }
  }

  lemma {:induction false} FirstChunkLines(b: seq<byte>, chunkSize: nat)
    ensures ChunkLines(b[0..], true, chunkSize) == LinesIn(b, 0, 0, chunkSize)
  {
    assert ChunkLines(b[0..], true, chunkSize) == Bounded(b[0..], 0, chunkSize);
    BoundedLines(b, 0, 0, 0, chunkSize);
  }

  /** A '\n' in b[o..] is found by searching `b` from `o`. */
  lemma {:induction false} NewlineAfter(b: seq<byte>, o: nat)
    requires o <= |b| && NL in b[o..]
    ensures NextNewline(b, o) < |b|
  {
    var bytes := b[o..];
    NextNewlineOfSuffix(b, o, 0);
    NoNewlineBefore(bytes, 0);
    var j :| 0 <= j < |bytes| && bytes[j] == NL;
    assert b[o + j] == NL;
  }

  /** A non-first chunk at offset o starts reading after the first '\n' at
      or after o, the k given. */
  lemma {:induction false} SkipAt(b: seq<byte>, o: nat, k: nat)
    requires o <= |b| && NL in b[o..] && k == NextNewline(b, o)
    ensures k < |b| && Skip(b[o..], false) == (b[k + 1..], k + 1 - o)
  {
    NewlineAfter(b, o);
    var bytes := b[o..];
    NextNewlineOfSuffix(b, o, 0);
    assert bytes[k - o + 1..] == b[k + 1..];
  }

  lemma {:induction false} LaterChunkLines(b: seq<byte>, o: nat, chunkSize: nat)
    requires o <= |b| && NL in b[o..]
    ensures ChunkLines(b[o..], false, chunkSize) == LinesIn(b, 0, o + 1, o + chunkSize)
  {
    var k := NextNewline(b, o);
    var lines := ChunkLines(b[o..], false, chunkSize);
    LaterChunkBounded(lines, b, o, k, chunkSize);
    ReadAfterNewline(lines, b, o, k, chunkSize);
  }

  /** Reading from just after the '\n' at k, the first one at or after o,
      with positions counted from o, yields the lines that start in
      (o, o + chunkSize]. */
  lemma {:induction false} ReadAfterNewline(lines: List<seq<byte>>, b: seq<byte>, o: nat, k: nat, chunkSize: nat)
    requires o <= |b| && k == NextNewline(b, o) && k < |b|
    requires lines == Bounded(b[k + 1..], k + 1 - o, chunkSize)
    ensures lines == LinesIn(b, 0, o + 1, o + chunkSize)
  {
    BoundedLines(b, o, k + 1, o + 1, chunkSize);
    LinesAfterNewline(b, 0, o, o + chunkSize);
  }

  /** A non-first chunk reads the buffer from just after the first '\n' at
      or after its offset, k. */
  lemma {:induction false} LaterChunkBounded(lines: List<seq<byte>>, b: seq<byte>, o: nat, k: nat, chunkSize: nat)
    requires o <= |b| && NL in b[o..]
    requires k == NextNewline(b, o)
    requires lines == ChunkLines(b[o..], false, chunkSize)
    ensures k < |b| && lines == Bounded(b[k + 1..], k + 1 - o, chunkSize)
  {
    SkipAt(b, o, k);
    LaterChunkSkips(lines, b[o..], chunkSize, b[k + 1..], k + 1 - o);
  }

  /** A non-first chunk reads the bounded lines after its skipped prefix. */
  lemma {:induction false} LaterChunkSkips(lines: List<seq<byte>>, bytes: seq<byte>, chunkSize: nat,
                                           rest: seq<byte>, position: nat)
    requires NL in bytes && lines == ChunkLines(bytes, false, chunkSize)
    requires Skip(bytes, false) == (rest, position)
    ensures lines == Bounded(rest, position, chunkSize)
  {
  }

  /** The nominal offset of chunk i, one chunk size after that of chunk
      i - 1 (lemma `OffsetIsProduct`: it is i * chunkSize). */
  function Offset(i: nat, chunkSize: nat): nat
  {
    if i == 0 then 0 else Offset(i - 1, chunkSize) + chunkSize
  }

  lemma {:induction false} OffsetIsProduct(i: nat, chunkSize: nat)
    ensures Offset(i, chunkSize) == i * chunkSize
  {
    if i > 0 {
      OffsetIsProduct(i - 1, chunkSize);
      assert (i - 1) * chunkSize + chunkSize == i * chunkSize;
    }
  }

  /** n chunks of `chunkSize` can be laid over `b`: every offset is inside
      the buffer, and every non-first chunk's bytes hold a '\n'. */
  predicate Layable(b: seq<byte>, chunkSize: nat, n: nat)
  {
    n == 0 ||
    (Layable(b, chunkSize, n - 1) &&
     Offset(n - 1, chunkSize) <= |b| &&
     (n == 1 || NL in b[Offset(n - 1, chunkSize)..]))
  }

  /** Offsets grow with i, so when the last chunk's bytes hold a '\n', so do
      those of every earlier non-first chunk. */
  lemma {:induction false} LastChunkLayable(b: seq<byte>, chunkSize: nat, n: nat)
    requires n >= 1 && Offset(n - 1, chunkSize) <= |b|
    requires n >= 2 ==> NL in b[Offset(n - 1, chunkSize)..]
    ensures Layable(b, chunkSize, n)
  {
    if n >= 2 {
      var o := Offset(n - 1, chunkSize);
      var p := Offset(n - 2, chunkSize);
      assert p <= o;
      if n >= 3 {
        var j :| 0 <= j < |b[o..]| && b[o..][j] == NL;
        assert b[p..][o - p + j] == NL;
      }
      LastChunkLayable(b, chunkSize, n - 1);
    }
  }

  /** The lines of chunks 0 .. n-1, chunk after chunk. */
  function Chunked(b: seq<byte>, chunkSize: nat, n: nat): List<seq<byte>>
    requires Layable(b, chunkSize, n)
  {
    if n == 0 then Nil
    else Cat(Chunked(b, chunkSize, n - 1), ChunkLines(b[Offset(n - 1, chunkSize)..], n == 1, chunkSize))
  }

  /** The lines of chunk i alone. */
  function ChunkAt(b: seq<byte>, chunkSize: nat, i: nat): List<seq<byte>>
    requires Layable(b, chunkSize, i + 1)
  {
    ChunkLines(b[Offset(i, chunkSize)..], i == 0, chunkSize)
  }

  /** Chunks 0 .. i are chunks 0 .. i-1 followed by chunk i. */
  lemma {:induction false} ChunkedStep(b: seq<byte>, chunkSize: nat, i: nat)
    requires Layable(b, chunkSize, i) && Layable(b, chunkSize, i + 1)
    ensures Chunked(b, chunkSize, i + 1) == Cat(Chunked(b, chunkSize, i), ChunkAt(b, chunkSize, i))
  {
  }

  /** Chunks at consecutive multiples of the chunk size partition the lines
      that start at or before n * chunkSize: together they yield each of
      them exactly once, in buffer order, and no other line. */
  lemma {:induction false} ChunksTile(b: seq<byte>, chunkSize: nat, n: nat)
    requires n >= 1 && Layable(b, chunkSize, n)
    ensures Chunked(b, chunkSize, n) == LinesIn(b, 0, 0, Offset(n, chunkSize))
  {
    if n == 1 {
      OneChunk(b, chunkSize);
    } else {
      LayablePrefix(b, chunkSize, n);
      ChunksTile(b, chunkSize, n - 1);
      TileStep(b, chunkSize, n);
    }
  }

  /** Fewer chunks can be laid wherever more can. */
  lemma {:induction false} LayablePrefix(b: seq<byte>, chunkSize: nat, n: nat)
    requires n >= 1 && Layable(b, chunkSize, n)
    ensures Layable(b, chunkSize, n - 1)
  {
  }

  /** Adding chunk n - 1 after the first n - 1 chunks extends the range of
      line starts they cover by one chunk size. */
  lemma {:induction false} TileStep(b: seq<byte>, chunkSize: nat, n: nat)
    requires n >= 2 && Layable(b, chunkSize, n)
    requires Chunked(b, chunkSize, n - 1) == LinesIn(b, 0, 0, Offset(n - 1, chunkSize))
    ensures Chunked(b, chunkSize, n) == LinesIn(b, 0, 0, Offset(n, chunkSize))
  {
    var o := Offset(n - 1, chunkSize);
    var earlier := Chunked(b, chunkSize, n - 1);
    var whole := Chunked(b, chunkSize, n);
    LastChunkAfter(whole, earlier, b, chunkSize, n, o);
    NextOffset(whole, b, chunkSize, n, o);
  }

  /** The lines of the last of n >= 2 chunks, at offset o, follow those
      starting in [0, o]. */
  lemma {:induction false} LastChunkAfter(whole: List<seq<byte>>, earlier: List<seq<byte>>,
                                          b: seq<byte>, chunkSize: nat, n: nat, o: nat)
    requires n >= 2 && Layable(b, chunkSize, n) && o == Offset(n - 1, chunkSize)
    requires whole == Chunked(b, chunkSize, n) && earlier == Chunked(b, chunkSize, n - 1)
    requires earlier == LinesIn(b, 0, 0, o)
    ensures whole == LinesIn(b, 0, 0, o + chunkSize)
  {
    var last := ChunkLines(b[o..], false, chunkSize);
    ChunkedLast(whole, earlier, last, b, chunkSize, n, o);
    LastChunk(last, b, o, chunkSize);
    AdjacentLines(whole, earlier, last, b, o, chunkSize);
  }

  /** The last of n >= 2 chunks is a non-first one whose bytes hold a '\n',
      and its lines follow those of the chunks before it. */
  lemma {:induction false} ChunkedLast(whole: List<seq<byte>>, earlier: List<seq<byte>>, last: List<seq<byte>>,
                                       b: seq<byte>, chunkSize: nat, n: nat, o: nat)
    requires n >= 2 && Layable(b, chunkSize, n) && o == Offset(n - 1, chunkSize)
    ensures Layable(b, chunkSize, n - 1) && o <= |b| && NL in b[o..]
    requires whole == Chunked(b, chunkSize, n) && earlier == Chunked(b, chunkSize, n - 1)
    requires last == ChunkLines(b[o..], false, chunkSize)
    ensures whole == Cat(earlier, last)
  {
  }

  /** `LaterChunkLines` for the last chunk, its lines held in `last`. */
  lemma {:induction false} LastChunk(last: List<seq<byte>>, b: seq<byte>, o: nat, chunkSize: nat)
    requires o <= |b| && NL in b[o..]
    requires last == ChunkLines(b[o..], false, chunkSize)
    ensures last == LinesIn(b, 0, o + 1, o + chunkSize)
  {
    LaterChunkLines(b, o, chunkSize);
  }

  /** The lines starting in [0, o] followed by those starting in
      (o, o + chunkSize] are the lines starting in [0, o + chunkSize]. */
  lemma {:induction false} AdjacentLines(whole: List<seq<byte>>, earlier: List<seq<byte>>, last: List<seq<byte>>,
                                         b: seq<byte>, o: nat, chunkSize: nat)
    requires whole == Cat(earlier, last)
    requires earlier == LinesIn(b, 0, 0, o)
    requires last == LinesIn(b, 0, o + 1, o + chunkSize)
    ensures whole == LinesIn(b, 0, 0, o + chunkSize)
  {
    LinesInConcat(b, 0, 0, o, o + chunkSize);
  }

  /** Chunk n starts one chunk size after chunk n - 1. */
  lemma {:induction false} NextOffset(whole: List<seq<byte>>, b: seq<byte>, chunkSize: nat, n: nat, o: nat)
    requires n >= 1 && o == Offset(n - 1, chunkSize)
    requires whole == LinesIn(b, 0, 0, o + chunkSize)
    ensures whole == LinesIn(b, 0, 0, Offset(n, chunkSize))
  {
    assert Offset(n, chunkSize) == o + chunkSize;
  }

  /** A single chunk is the first one, and yields the lines that start in
      [0, chunkSize]. */
  lemma {:induction false} OneChunk(b: seq<byte>, chunkSize: nat)
    requires Layable(b, chunkSize, 1)
    ensures Chunked(b, chunkSize, 1) == LinesIn(b, 0, 0, Offset(1, chunkSize))
  {
    assert b[Offset(0, chunkSize)..] == b[0..];
    FirstChunkLines(b, chunkSize);
  }

  /** When the chunks reach past the last line start, they yield every line
      of the buffer: `str::lines` of the whole buffer, in order. */
  lemma {:induction false} ChunksCoverAll(b: seq<byte>, chunkSize: nat, n: nat)
    requires n >= 1 && Layable(b, chunkSize, n)
    requires |b| <= n * chunkSize
    ensures Chunked(b, chunkSize, n) == AllLines(b)
  {
    ChunksTile(b, chunkSize, n);
    OffsetIsProduct(n, chunkSize);
    LinesInAll(b, 0, 0, Offset(n, chunkSize));
  }

  /** Chunk i read to the end of the buffer, as the final bound |b| rather
      than a chunk size would have it. */
  function LastChunkToEnd(b: seq<byte>, chunkSize: nat, i: nat): List<seq<byte>>
    requires Layable(b, chunkSize, i + 1)
  {
    ChunkLines(b[Offset(i, chunkSize)..], i == 0, |b| - Offset(i, chunkSize))
  }

  /** The lines of n chunks whose last one reads to the end of the buffer. */
  function ChunkedToEnd(b: seq<byte>, chunkSize: nat, n: nat): List<seq<byte>>
    requires n >= 1 && Layable(b, chunkSize, n)
  {
    Cat(Chunked(b, chunkSize, n - 1), LastChunkToEnd(b, chunkSize, n - 1))
  }

  /** The lines starting at or before o, then a non-first chunk at o read
      to the end, are all the lines of the buffer. */
  lemma {:induction false} RestOfBuffer(b: seq<byte>, o: nat, earlier: List<seq<byte>>, last: List<seq<byte>>)
    requires o <= |b| && NL in b[o..]
    requires earlier == LinesIn(b, 0, 0, o)
    requires last == ChunkLines(b[o..], false, |b| - o)
    ensures Cat(earlier, last) == AllLines(b)
  {
    LaterChunkLines(b, o, |b| - o);
    assert last == LinesIn(b, 0, o + 1, |b|);
    LinesInConcat(b, 0, 0, o, |b|);
    LinesInAll(b, 0, 0, |b|);
  }

  /** Chunks whose last one reads to the end yield every line of the
      buffer exactly once, in order, whatever the chunk size. */
  lemma {:induction false} ChunkedToEndCoversAll(b: seq<byte>, chunkSize: nat, n: nat)
    requires n >= 1 && Layable(b, chunkSize, n)
    ensures ChunkedToEnd(b, chunkSize, n) == AllLines(b)
  {
    LayablePrefix(b, chunkSize, n);
    AllLinesSplit(b, chunkSize, n - 1);
  }

  /** The last chunk, i >= 1, is a non-first chunk at its offset. */
  lemma {:induction false} LaterLastChunk(b: seq<byte>, chunkSize: nat, i: nat, o: nat, last: List<seq<byte>>)
    requires i >= 1 && Layable(b, chunkSize, i + 1)
    requires o == Offset(i, chunkSize) && last == LastChunkToEnd(b, chunkSize, i)
    ensures o <= |b| && NL in b[o..]
    ensures last == ChunkLines(b[o..], false, |b| - o)
  {
  }

  /** Chunks 0 .. i-1, then chunk i >= 1 read to the end, yield every
      line. */
  lemma {:induction false} LaterChunksToEnd(b: seq<byte>, chunkSize: nat, i: nat, earlier: List<seq<byte>>, last: List<seq<byte>>)
    requires i >= 1 && Layable(b, chunkSize, i) && Layable(b, chunkSize, i + 1)
    requires earlier == Chunked(b, chunkSize, i) && last == LastChunkToEnd(b, chunkSize, i)
    ensures Cat(earlier, last) == AllLines(b)
  {
    var o := Offset(i, chunkSize);
    ChunksTile(b, chunkSize, i);
    LaterLastChunk(b, chunkSize, i, o, last);
    RestOfBuffer(b, o, earlier, last);
  }

  /** A single chunk read to the end yields every line. */
  lemma {:induction false} OnlyChunkToEnd(b: seq<byte>, chunkSize: nat, last: List<seq<byte>>)
    requires Layable(b, chunkSize, 1) && last == LastChunkToEnd(b, chunkSize, 0)
    ensures last == AllLines(b)
  {
    assert b[Offset(0, chunkSize)..] == b[0..];
    FirstChunkLines(b, |b|);
    LinesInAll(b, 0, 0, |b|);
  }

  /** The chunks before i followed by chunk i read to the end are every
      line of the buffer. */
  lemma {:induction false} AllLinesSplit(b: seq<byte>, chunkSize: nat, i: nat)
    requires Layable(b, chunkSize, i) && Layable(b, chunkSize, i + 1)
    ensures AllLines(b) == Cat(Chunked(b, chunkSize, i), LastChunkToEnd(b, chunkSize, i))
  {
    var last := LastChunkToEnd(b, chunkSize, i);
    if i == 0 {
      OnlyChunkToEnd(b, chunkSize, last);
    } else {
      LaterChunksToEnd(b, chunkSize, i, Chunked(b, chunkSize, i), last);
    }
  }
}
