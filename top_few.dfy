/** `top_few_from_stream` of src/lib.rs: the buffer is cut into one chunk
    per CPU, each chunk's lines are counted by key into an unbounded
    counter, the chunk counters are merged into one that keeps the `num`
    largest, and that counter's `top()` is the answer. The buffer stands for
    the memory-mapped file and `cpus` for `num_cpus::get()`; the parallel
    map and reduction are taken in chunk order. */
module TopFew {
  import opened Bytes
  import opened Lines
  import opened Chunks
  import opened KeyFinding
  import opened Counting

  /** One more occurrence of k. */
  function Bump(m: Counts, k: seq<byte>): (r: Counts)
    ensures r.Keys == m.Keys + {k}
    ensures Get(r, k) == Get(m, k) + 1
    ensures forall j :: j != k ==> Get(r, j) == Get(m, j)
  {
    m[k := Get(m, k) + 1]
  }

  /** One line counted: one more for its key, nothing when `kf.key` finds
      none. */
  function Counted(kf: KeyFinder, m: Counts, line: seq<byte>): (r: Counts)
    ensures KeyOf(kf, line, []).0.Ok? ==> r == Bump(m, KeyOf(kf, line, []).0.key)
    ensures KeyOf(kf, line, []).0.Err? ==> r == m
    ensures forall k :: Get(r, k) <= Get(m, k) + 1
  {
    var key := KeyOf(kf, line, []).0;
    if key.Ok? then Bump(m, key.key) else m
  }

  /** The exact counts: m plus one for the key of every line. */
  function Tally(kf: KeyFinder, m: Counts, lines: List<seq<byte>>): Counts
    decreases lines
  {
    match lines
    case Nil => m
    case Cons(line, rest) => Tally(kf, Counted(kf, m, line), rest)
  }

  /** Counting two lists of lines one after the other is counting their
      concatenation. */
  lemma {:induction false} TallyCat(kf: KeyFinder, m: Counts, a: List<seq<byte>>, c: List<seq<byte>>)
    ensures Tally(kf, m, Cat(a, c)) == Tally(kf, Tally(kf, m, a), c)
    decreases a
  {
    match a
    case Nil =>
    case Cons(line, rest) =>
      TallyCat(kf, Counted(kf, m, line), rest, c);
  }

  /** One occurrence added is a map of one occurrence merged in. */
  lemma {:induction false} BumpIsMerge(m: Counts, k: seq<byte>)
    ensures Bump(m, k) == MergeCounts(m, Bump(map[], k))
  {
    SameCounts(Bump(m, k), MergeCounts(m, Bump(map[], k)));
  }

  /** Counting from m is counting from nothing and merging m in: what lets
      each chunk be counted by a counter of its own. */
  lemma {:induction false} TallyFrom(kf: KeyFinder, m: Counts, lines: List<seq<byte>>)
    ensures Tally(kf, m, lines) == MergeCounts(m, Tally(kf, map[], lines))
    decreases lines
  {
    match lines
    case Nil =>
      MergeCountsLaws(m, map[], map[]);
    case Cons(line, rest) =>
      var key := KeyOf(kf, line, []).0;
      var later := Tally(kf, map[], rest);
      if key.Ok? {
        var one := Bump(map[], key.key);
        TallyFrom(kf, Bump(m, key.key), rest);
        TallyFrom(kf, one, rest);
        BumpIsMerge(m, key.key);
        MergeCountsLaws(m, one, later);
      } else {
        TallyFrom(kf, m, rest);
      }
  }

  /** The counts of two runs of lines, merged, are the counts of the one
      run after the other. */
  lemma {:induction false} MergeCat(kf: KeyFinder, earlier: Counts, chunk: Counts,
                                    a: List<seq<byte>>, c: List<seq<byte>>, whole: List<seq<byte>>)
    requires earlier == Tally(kf, map[], a) && chunk == Tally(kf, map[], c) && whole == Cat(a, c)
    ensures MergeCounts(earlier, chunk) == Tally(kf, map[], whole)
  {
    TallyCat(kf, map[], a, c);
    TallyFrom(kf, earlier, c);
  }

  /** No key is counted more often than there are lines. */
  lemma {:induction false} TallyBound(kf: KeyFinder, m: Counts, lines: List<seq<byte>>, k: seq<byte>)
    ensures Get(Tally(kf, m, lines), k) <= Get(m, k) + Length(lines)
    decreases lines
  {
    match lines
    case Nil =>
    case Cons(line, rest) =>
      TallyBound(kf, Counted(kf, m, line), rest, k);
  }

  /** The body of the loop over a chunk's lines: the cleared string `s`
      receives the key, which is added once when there is one. */
  method CountLine(counter: Counter, kf: KeyFinder, line: seq<byte>)
    requires counter.Valid() && counter.num == 0 && counter.threshold == U64_MAX
    requires forall k :: Get(counter.counts, k) + 1 < U64_MAX
    modifies counter
    ensures counter.Valid() && counter.threshold == U64_MAX
    ensures counter.counts == Counted(kf, old(counter.counts), line)
  {
    ghost var m := counter.counts;
    var key, s := Key(kf, line, []);
    if key.Ok? {
      assert Get(m, key.key) + 1 < U64_MAX;
      counter.Add(key.key, 1);
      assert counter.counts == Bump(m, key.key);
    }
  }

  /** One task of the parallel map: the lines of one chunk, each counted
      under its key in an unbounded counter. */
  method CountChunk(kf: KeyFinder, bytes: seq<byte>, first: bool, chunkSize: nat) returns (counter: Counter)
    requires first || NL in bytes
    requires Length(ChunkLines(bytes, first, chunkSize)) < U64_MAX
    ensures fresh(counter) && counter.Valid() && counter.num == 0
    ensures counter.counts == Tally(kf, map[], ChunkLines(bytes, first, chunkSize))
  {
    var reader := new Chunk(bytes, first, chunkSize);
    counter := new Counter(None);
    ghost var all := reader.Remaining();
    while true
      invariant fresh(counter) && reader.Valid() && counter.Valid()
      invariant counter.num == 0 && counter.threshold == U64_MAX
      invariant Tally(kf, counter.counts, reader.Remaining()) == Tally(kf, map[], all)
      invariant forall k :: Get(counter.counts, k) + Length(reader.Remaining()) <= Length(all)
      decreases Length(reader.Remaining())
    {
      var ln := reader.Next();
      if ln.None? {
        break;
      }
      CountLine(counter, kf, ln.value);
    }
  }

  /** What the source slices for chunk i is what the model lays there,
      and the chunk holds no more lines than the buffer has bytes. */
  lemma {:induction false} ChunkFits(b: seq<byte>, chunkSize: nat, i: nat)
    requires Layable(b, chunkSize, i) && Layable(b, chunkSize, i + 1)
    ensures 0 <= i * chunkSize <= |b| && (i == 0 || NL in b[i * chunkSize..])
    ensures ChunkAt(b, chunkSize, i) == ChunkLines(b[i * chunkSize..], i == 0, chunkSize)
    ensures Length(ChunkAt(b, chunkSize, i)) <= |b|
  {
    OffsetIsProduct(i, chunkSize);
    ChunksTile(b, chunkSize, i + 1);
    LinesInLength(b, 0, 0, Offset(i + 1, chunkSize));
    LengthCat(Chunked(b, chunkSize, i), ChunkAt(b, chunkSize, i));
  }

  /** Counts that merge into the tally of at most n lines sum to at most n
      key by key. */
  lemma {:induction false} MergedBound(kf: KeyFinder, earlier: Counts, chunk: Counts, lines: List<seq<byte>>, n: nat)
    requires MergeCounts(earlier, chunk) == Tally(kf, map[], lines) && Length(lines) <= n
    ensures forall k :: k in chunk ==> Get(earlier, k) + chunk[k] <= n
  {
    forall k | k in chunk ensures Get(earlier, k) + chunk[k] <= n {
      TallyBound(kf, map[], lines, k);
      assert Get(chunk, k) == chunk[k];
    }
  }

  /** Chunks 0 .. i hold no more lines than the buffer has bytes. */
  lemma {:induction false} ChunkedLength(b: seq<byte>, chunkSize: nat, n: nat)
    requires n >= 1 && Layable(b, chunkSize, n)
    ensures Length(Chunked(b, chunkSize, n)) <= |b|
  {
    ChunksTile(b, chunkSize, n);
    LinesInLength(b, 0, 0, Offset(n, chunkSize));
  }

  /** What merging chunk i's counter needs and gives: no sum overflows,
      and the result is the tally of chunks 0 .. i. */
  lemma {:induction false} ChunkStep(kf: KeyFinder, b: seq<byte>, chunkSize: nat, i: nat, earlier: Counts, chunk: Counts)
    requires Layable(b, chunkSize, i) && Layable(b, chunkSize, i + 1)
    requires earlier == Tally(kf, map[], Chunked(b, chunkSize, i))
    requires chunk == Tally(kf, map[], ChunkAt(b, chunkSize, i))
    ensures MergeCounts(earlier, chunk) == Tally(kf, map[], Chunked(b, chunkSize, i + 1))
    ensures forall k :: k in chunk ==> Get(earlier, k) + chunk[k] <= |b|
  {
    var whole := Chunked(b, chunkSize, i + 1);
    ChunkedStep(b, chunkSize, i);
    MergeCat(kf, earlier, chunk, Chunked(b, chunkSize, i), ChunkAt(b, chunkSize, i), whole);
    ChunkedLength(b, chunkSize, i + 1);
    MergedBound(kf, earlier, chunk, whole, |b|);
  }

  /** `len / cpus` chunks of that size fit in `len` bytes. */
  lemma {:induction false} ChunkSizeFits(len: nat, cpus: nat)
    requires cpus >= 1
    ensures Offset(cpus - 1, len / cpus) <= Offset(cpus, len / cpus) <= len
  {
    var q := len / cpus;
    OffsetIsProduct(cpus, q);
    assert cpus * q + len % cpus == len;
  }

  /** With chunkSize = |b| / cpus, chunks can be laid over the buffer when
      the bytes from the last chunk's offset on hold a '\n' (a non-first
      chunk without one makes the source index past its end). */
  lemma {:induction false} ChunksLayable(b: seq<byte>, cpus: nat)
    requires cpus >= 1
    requires cpus >= 2 ==> exists j :: Offset(cpus - 1, |b| / cpus) <= j < |b| && b[j] == NL
    ensures Layable(b, |b| / cpus, cpus)
  {
    var chunkSize := |b| / cpus;
    ChunkSizeFits(|b|, cpus);
    var o := Offset(cpus - 1, chunkSize);
    if cpus >= 2 {
      var j :| o <= j < |b| && b[j] == NL;
      assert b[o..][j - o] == NL;
    }
    LastChunkLayable(b, chunkSize, cpus);
  }

  /** One chunk of the pipeline: the last of n chunks is counted on its
      own and its counter merged into the running total. */
  method CountAndMerge(total: Counter, kf: KeyFinder, b: seq<byte>, chunkSize: nat, n: nat)
    requires n >= 1 && Layable(b, chunkSize, n) && |b| < U64_MAX
    requires total.Valid() && total.Whole() && total.num >= 1
    requires total.counts == Tally(kf, map[], Chunked(b, chunkSize, n - 1))
    modifies total
    ensures total.Valid() && total.Whole()
    ensures total.counts == Tally(kf, map[], Chunked(b, chunkSize, n))
  {
    var i := n - 1;
    LayablePrefix(b, chunkSize, n);
    ChunkFits(b, chunkSize, i);
    var counter := CountChunk(kf, b[i * chunkSize..], i == 0, chunkSize);
    ChunkStep(kf, b, chunkSize, i, total.counts, counter.counts);
    total.Merge(counter);
  }

  /** The parallel map and reduction, taken in chunk order: chunk after
      chunk is counted and merged into a counter bounded by `num`. */
  method CountChunks(b: seq<byte>, kf: KeyFinder, num: nat, n: nat, chunkSize: nat) returns (total: Counter)
    requires num >= 1 && |b| < U64_MAX && Layable(b, chunkSize, n)
    ensures fresh(total) && total.Valid() && total.Whole() && total.num == num
    ensures total.counts == Tally(kf, map[], Chunked(b, chunkSize, n))
    decreases n
  {
    if n == 0 {
      total := new Counter(Some(num));
    } else {
      LayablePrefix(b, chunkSize, n);
      total := CountChunks(b, kf, num, n - 1, chunkSize);
      CountAndMerge(total, kf, b, chunkSize, n);
    }
  }

  /** What the answer promises about the exact counts: largest first, at
      most `num` entries, each key once and with its exact count, and no
      key left out counted more often than a key reported. */
  ghost predicate Reports(r: seq<KeyCount>, exact: Counts, num: nat)
  {
    SortedDesc(r) && |r| <= num &&
    (forall x :: x in r ==> x.key in exact && exact[x.key] == x.count) &&
    (forall i, j :: 0 <= i < j < |r| ==> r[i].key != r[j].key) &&
    (forall k, x :: k in exact && KeyCount(exact[k], k) !in r && x in r ==> exact[k] <= x.count)
  }

  /** Every key left out of the answer has at least num other keys counted
      at least as often: only a key that num others match or beat can be
      missing, so in particular a key counted more often than all but
      fewer than num others is always reported. */
  ghost predicate Outranked(r: seq<KeyCount>, exact: Counts, num: nat)
  {
    forall k :: k in exact && KeyCount(exact[k], k) !in r ==> |Rivals(exact, k)| >= num
  }

  /** Every key counted from a positive start is counted at least once. */
  lemma {:induction false} TallyPositive(kf: KeyFinder, m: Counts, lines: List<seq<byte>>)
    requires forall k :: k in m ==> m[k] >= 1
    ensures forall k :: k in Tally(kf, m, lines) ==> Tally(kf, m, lines)[k] >= 1
    decreases lines
  {
    match lines
    case Nil =>
    case Cons(line, rest) =>
      var next := Counted(kf, m, line);
      forall k | k in next ensures next[k] >= 1 {
        assert Get(next, k) == next[k];
      }
      TallyPositive(kf, next, rest);
  }

  /** The final `top()` of the merged counter: since the counter holds the
      exact counts of the lines merged into it, what it reports holds of
      those counts; it reports `num` entries or every key counted more
      often than the threshold; every key it leaves out has at least `num`
      others counted at least as often; and while fewer than 2 * num keys
      were counted it reports exactly the `num` largest entries. Every
      count is positive, as each key is added once per line found. */
  method Report(total: Counter, ghost exact: Counts) returns (r: seq<KeyCount>)
    requires total.Valid() && total.Whole() && total.num >= 1 && total.counts == exact
    requires forall k :: k in exact ==> exact[k] >= 1
    ensures Reports(r, exact, total.num) && Outranked(r, exact, total.num)
    ensures |r| == total.num || forall k :: k in exact && exact[k] > total.threshold ==> KeyCount(exact[k], k) in r
    ensures |exact| < 2 * total.num ==> r == TopOf(exact, total.num)
  {
    r := total.Top();
    TopReportsExact(total.counts, total.top, total.threshold, total.num, r);
    TopReportsAbove(total.counts, total.top, total.threshold, total.num, r);
    TopLeavesOutOutranked(total.counts, total.top, total.threshold, total.num, r);
  }

  /** One chunk of |b| / cpus bytes per CPU, counted and merged chunk
      after chunk into a counter bounded by `num`: the lines that start at
      or before cpus * (|b| / cpus) are counted exactly. */
  method CountCovered(b: seq<byte>, kf: KeyFinder, num: nat, cpus: nat) returns (total: Counter)
    requires cpus >= 1 && num >= 1 && |b| < U64_MAX
    requires cpus >= 2 ==> exists j :: 0 <= j < |b| && (cpus - 1) * (|b| / cpus) <= j && b[j] == NL
    ensures total.Valid() && total.Whole() && total.num == num
    ensures total.counts == Tally(kf, map[], LinesIn(b, 0, 0, cpus * (|b| / cpus)))
  {
    var chunkSize := |b| / cpus;
    OffsetIsProduct(cpus - 1, chunkSize);
    ChunksLayable(b, cpus);
    total := CountChunks(b, kf, num, cpus, chunkSize);
    ChunksTile(b, chunkSize, cpus);
    OffsetIsProduct(cpus, chunkSize);
  }

  /** `top_few_from_stream`: with one chunk per CPU, every key it reports
      comes with its exact count over the lines the chunks cover, largest
      first, at most `num` of them, each key once; no key left out has a
      larger count than a key reported, and every key left out has at
      least `num` others counted at least as often. The chunks cover the
      lines that start at or before cpus * (|b| / cpus). */
  method TopFewFromStream(b: seq<byte>, kf: KeyFinder, num: nat, cpus: nat) returns (r: seq<KeyCount>)
    requires cpus >= 1 && num >= 1 && |b| < U64_MAX
    requires cpus >= 2 ==> exists j :: 0 <= j < |b| && (cpus - 1) * (|b| / cpus) <= j && b[j] == NL
    ensures Reports(r, Tally(kf, map[], LinesIn(b, 0, 0, cpus * (|b| / cpus))), num)
    ensures Outranked(r, Tally(kf, map[], LinesIn(b, 0, 0, cpus * (|b| / cpus))), num)
    ensures var exact := Tally(kf, map[], LinesIn(b, 0, 0, cpus * (|b| / cpus)));
      |exact| < 2 * num ==> r == TopOf(exact, num) && |r| == (if |exact| > num then num else |exact|)
  {
    var total := CountCovered(b, kf, num, cpus);
    ghost var exact := Tally(kf, map[], LinesIn(b, 0, 0, cpus * (|b| / cpus)));
    TallyPositive(kf, map[], LinesIn(b, 0, 0, cpus * (|b| / cpus)));
    r := Report(total, exact);
    TopOfSpec(exact, num);
  }

  /** On "aaaa\nb\n" with four CPUs (chunk size 1) the chunks can be laid,
      yet they cover only the lines starting at or before byte 4: the line
      "b", which starts at byte 5, is counted by no chunk. */
  lemma TailLineDropped()
    ensures var b: seq<byte> := [97, 97, 97, 97, 10, 98, 10];
      Layable(b, |b| / 4, 4) &&
      AllLines(b) == Cons([97, 97, 97, 97], Cons([98], Nil)) &&
      LinesIn(b, 0, 0, 4 * (|b| / 4)) == Cons([97, 97, 97, 97], Nil)
  {
    var b: seq<byte> := [97, 97, 97, 97, 10, 98, 10];
    assert |b| / 4 == 1 && Offset(3, 1) == 3 && b[4] == NL;
    ChunksLayable(b, 4);
    NextNewlineIs(b, 0, 4);
    NextNewlineIs(b, 5, 6);
    assert b[0..4] == [97, 97, 97, 97] && b[5..6] == [98];
    assert LinesFrom(b, 7) == Nil && LinesIn(b, 7, 0, 4) == Nil;
  }

  /** The lines of the last chunk, i, read to the end, as a slice at
      o = i * chunkSize and bounded by what is left of the buffer. */
  lemma {:induction false} LastChunkFits(b: seq<byte>, chunkSize: nat, i: nat, o: int, first: bool, size: int)
    requires Layable(b, chunkSize, i + 1)
    requires o == i * chunkSize && first == (i == 0) && size == |b| - o
    ensures 0 <= o <= |b| && 0 <= size && (first || NL in b[o..])
    ensures LastChunkToEnd(b, chunkSize, i) == ChunkLines(b[o..], first, size)
  {
    OffsetIsProduct(i, chunkSize);
  }

  /** The last chunk, read to the end, holds no more lines than the buffer
      has bytes. */
  lemma {:induction false} LastChunkLength(b: seq<byte>, chunkSize: nat, i: nat)
    requires Layable(b, chunkSize, i) && Layable(b, chunkSize, i + 1)
    ensures Length(LastChunkToEnd(b, chunkSize, i)) <= |b|
  {
    AllLinesSplit(b, chunkSize, i);
    AllLinesLength(b);
    LengthCat(Chunked(b, chunkSize, i), LastChunkToEnd(b, chunkSize, i));
  }

  /** Merging the counter of the last chunk, i, read to the end, into the
      counts of the others gives the counts of every line. */
  lemma {:induction false} LastChunkMerged(kf: KeyFinder, b: seq<byte>, chunkSize: nat, i: nat, earlier: Counts, chunk: Counts)
    requires Layable(b, chunkSize, i) && Layable(b, chunkSize, i + 1)
    requires earlier == Tally(kf, map[], Chunked(b, chunkSize, i))
    requires chunk == Tally(kf, map[], LastChunkToEnd(b, chunkSize, i))
    ensures MergeCounts(earlier, chunk) == Tally(kf, map[], AllLines(b))
  {
    AllLinesSplit(b, chunkSize, i);
    MergeCat(kf, earlier, chunk, Chunked(b, chunkSize, i), LastChunkToEnd(b, chunkSize, i), AllLines(b));
  }

  /** What merging the last chunk's counter needs and gives: no sum
      overflows, and the result is the tally of every line. */
  lemma {:induction false} LastChunkStep(kf: KeyFinder, b: seq<byte>, chunkSize: nat, i: nat, earlier: Counts, chunk: Counts)
    requires Layable(b, chunkSize, i) && Layable(b, chunkSize, i + 1)
    requires earlier == Tally(kf, map[], Chunked(b, chunkSize, i))
    requires chunk == Tally(kf, map[], LastChunkToEnd(b, chunkSize, i))
    ensures MergeCounts(earlier, chunk) == Tally(kf, map[], AllLines(b))
    ensures forall k :: k in chunk ==> Get(earlier, k) + chunk[k] <= |b|
  {
    var whole := AllLines(b);
    LastChunkMerged(kf, b, chunkSize, i, earlier, chunk);
    AllLinesLength(b);
    MergedBound(kf, earlier, chunk, whole, |b|);
  }

  /** The buffer has no more lines than bytes. */
  lemma {:induction false} AllLinesLength(b: seq<byte>)
    ensures Length(AllLines(b)) <= |b|
  {
    LinesInAll(b, 0, 0, |b|);
    LinesInLength(b, 0, 0, |b|);
  }

  /** The first n - 1 chunks counted and merged into a counter bounded by
      `num`, then the last of the n chunks, read to the end, counted and
      merged into it too. */
  method CountAndMergeLast(kf: KeyFinder, b: seq<byte>, num: nat, chunkSize: nat, n: nat) returns (total: Counter)
    requires n >= 1 && num >= 1 && Layable(b, chunkSize, n) && |b| < U64_MAX
    ensures total.Valid() && total.Whole() && total.num == num
    ensures total.counts == Tally(kf, map[], AllLines(b))
  {
    var i := n - 1;
    LayablePrefix(b, chunkSize, n);
    total := CountChunks(b, kf, num, i, chunkSize);
    var o, first := i * chunkSize, i == 0;
    var size := |b| - o;
    LastChunkFits(b, chunkSize, i, o, first, size);
    LastChunkLength(b, chunkSize, i);
    var counter := CountChunk(kf, b[o..], first, size);
    LastChunkStep(kf, b, chunkSize, i, total.counts, counter.counts);
    total.Merge(counter);
  }

  /** One chunk of |b| / cpus bytes per CPU can be laid, and so can all but
      the last of them, when the last chunk's bytes hold a '\n'. */
  lemma {:induction false} CpuChunksLayable(b: seq<byte>, cpus: nat, chunkSize: nat)
    requires cpus >= 1 && chunkSize == |b| / cpus
    requires cpus >= 2 ==> exists j :: 0 <= j < |b| && (cpus - 1) * chunkSize <= j && b[j] == NL
    ensures Layable(b, chunkSize, cpus) && Layable(b, chunkSize, cpus - 1)
  {
    OffsetIsProduct(cpus - 1, chunkSize);
    ChunksLayable(b, cpus);
    LayablePrefix(b, chunkSize, cpus);
  }

  /** The chunks with the last one read to the end of the buffer, counted
      and merged chunk after chunk into a counter bounded by `num`. */
  method CountChunksToEnd(b: seq<byte>, kf: KeyFinder, num: nat, cpus: nat) returns (total: Counter)
    requires cpus >= 1 && num >= 1 && |b| < U64_MAX
    requires cpus >= 2 ==> exists j :: 0 <= j < |b| && (cpus - 1) * (|b| / cpus) <= j && b[j] == NL
    ensures total.Valid() && total.Whole() && total.num == num
    ensures total.counts == Tally(kf, map[], AllLines(b))
  {
    var chunkSize := |b| / cpus;
    CpuChunksLayable(b, cpus, chunkSize);
    total := CountAndMergeLast(kf, b, num, chunkSize, cpus);
  }

  /** `top_few_from_stream` with the last chunk bounded by the end of the
      buffer instead of by the chunk size: the same guarantees, now over
      every line of the buffer. */
  method TopFewFromStreamToEnd(b: seq<byte>, kf: KeyFinder, num: nat, cpus: nat) returns (r: seq<KeyCount>)
    requires cpus >= 1 && num >= 1 && |b| < U64_MAX
    requires cpus >= 2 ==> exists j :: 0 <= j < |b| && (cpus - 1) * (|b| / cpus) <= j && b[j] == NL
    ensures Reports(r, Tally(kf, map[], AllLines(b)), num)
    ensures Outranked(r, Tally(kf, map[], AllLines(b)), num)
    ensures var exact := Tally(kf, map[], AllLines(b));
      |exact| < 2 * num ==> r == TopOf(exact, num) && |r| == (if |exact| > num then num else |exact|)
  {
    var total := CountChunksToEnd(b, kf, num, cpus);
    TallyPositive(kf, map[], AllLines(b));
    r := Report(total, Tally(kf, map[], AllLines(b)));
    TopOfSpec(Tally(kf, map[], AllLines(b)), num);
  }
}
