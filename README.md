# topfew, modelled in Dafny

topfew reports the most frequent keys in a large text file, such as a web
server's access log. A key is made of selected space- or tab-separated
fields of a line. The file is cut into one byte-range chunk per CPU. Each
chunk yields whole lines, and its lines are counted by key in an exact,
unbounded counter. The chunk counters are then merged into one counter that
keeps a pruned "top" table of the `num` largest keys, and that table is
reported largest first.

The project has one module per part of that engine:

- `bytes.dfy` (module `Bytes`): bytes, the `u64` and `usize` bounds, an
  `Option`, and the bytes of ASCII text.
- `lines.dfy` (module `Lines`): the lines of a buffer as `str::lines` sees
  them, located by their start offsets.
- `chunks.dfy` (module `Chunks`): the `Chunk` line iterator, as a class
  whose `next` steps a state machine. The lemmas show which lines a chunk
  yields and that adjacent chunks tile the buffer's lines.
- `key_finder.dfy` (module `KeyFinding`): `KeyFinder::new` builds its table
  of field gaps in a loop. `key` walks a bounded split of the record. The
  lemmas relate both to a plain "pick these fields of the full split".
- `counter.dfy` (module `Counting`): the `Counter` class with `add`, `top`
  and `merge`, and `KeyCount`'s derived order. Its invariant relates the
  exact counts, the pruned `top` table and the threshold. The lemmas show
  what `top()` then promises about the exact counts.
- `top_few.dfy` (module `TopFew`): `top_few_from_stream`. Chunks are
  counted and merged in chunk order, and what the answer means is stated
  over the exact key counts of the lines the chunks cover.

Text is modelled as bytes (`seq<byte>`). Every operation the core applies
to a `&str` works on bytes: length, splitting on `' '`, `'\t'` and `'\n'`,
and `String`'s order. The file is a byte sequence. The CPU count is a
parameter.

Three behaviours of the code shape the model:

- A chunk stops only once its position is strictly past the chunk size
  (src/chunks.rs:43). A line that starts exactly at a chunk's nominal end
  is therefore read by the earlier chunk, and the next chunk skips it
  (`Chunks.StepBound`, `Chunks.ChunkWindow`).
- The compaction threshold is index `num - 1` of the ascending sort of the
  `2 * num` values in `top` (src/counter.rs:47-49). That is the `num`-th
  smallest of them (`Counting.NthCount`, `Counting.SortedNth`).
- A key counted in k chunks is added to the final counter k times, once
  per chunk's partial count (src/lib.rs:38-40, src/counter.rs:71-77).
  Rayon may also first merge chunks into several counters, each starting
  as `Counter::new(Some(num))`. Yet `merge` adds the other counter's exact
  `counts`, never its pruned table, and every `add` keeps the counter's
  invariant (`Counting.Coherent`). Under it, each key whose exact count is
  above the threshold is in `top` with that count. Once a compaction has
  raised the threshold, more than `num` keys are counted at least that
  often, since the compaction left them so and counts only grow. So:
  - what `top()` reports is exact, and no left-out key has a larger count
    than a reported one (`Counting.TopReportsExact`);
  - the answer holds `num` entries or every key above the threshold
    (`Counting.TopReportsAbove`);
  - every key left out has at least `num` other keys counted at least as
    often (`Counting.TopLeavesOutOutranked`). A key that fewer than `num`
    others match or beat, such as a key counted strictly more often than
    all others, is always reported.

  Keys tied at the threshold can still leave fewer than `num` entries in
  the answer (`Counting.TiedCompactionEmpties`). With fewer than 2 * `num`
  distinct keys nothing is ever compacted, and the answer is exactly the
  `num` largest entries (`TopFew.TopFewFromStream`).

## Model

| member | source | states |
|---|---|---|
| Chunks.Skip | src/chunks.rs:19-28 | The first chunk reads from byte 0 at position 0. A non-first chunk reads from just after its first '\n' (with no '\n' before it), at a position equal to the number of bytes skipped. |
| Chunks.SkipFirstLine | src/chunks.rs:21-28 | The skipping loop of a non-first chunk's first call ends with exactly the bytes and position that `Skip` describes. |
| Chunks.NextLineSplits | src/chunks.rs:48 | A line that `str::lines` yields holds no '\n'. The bytes are that line, its '\n' and the rest, or the line alone when it is the last. |
| Chunks.StepYieldsPending | src/chunks.rs:17-51 | One `next()` yields the first of the lines still pending, and afterwards exactly the others are pending. With nothing pending it yields `None` and nothing becomes pending. |
| Chunks.StepBound | src/chunks.rs:40-50 | `End` is final. A position past the chunk size ends the iterator with no line. A yielded line was read at a position within the chunk size, holds no '\n', and advances the position by its length plus one. |
| Chunks.Chunk.constructor | src/chunks.rs:7-12 | A new chunk starts in `Start` with its bytes and flag. It can be stepped exactly when it is the first or its bytes hold a '\n'. Its pending lines are then `ChunkLines`. |
| Chunks.Chunk.Next | src/chunks.rs:17-51 | `next()` moves the state as `Step` does and returns the head of the pending lines, leaving their tail, or `None` when none remain. |
| Chunks.BoundedLines | src/chunks.rs:43-50 | Reading lines from a line start at, with the position counted from offset o, yields exactly the buffer's lines that start between at and o + chunk size. |
| Chunks.ChunkWindow | src/chunks.rs:17-51 | Chunk 0 yields exactly the lines that start in [0, chunk size]. A non-first chunk at offset o yields exactly the lines that start in (o, o + chunk size]. |
| Chunks.OffsetIsProduct | src/lib.rs:26 | The nominal offset of chunk i is i * chunk_size. |
| Chunks.LastChunkLayable | src/lib.rs:25-26 | When the last chunk's bytes hold a '\n', every earlier non-first chunk's bytes do too, so no chunk's skip runs off the end. |
| Chunks.ChunksTile | src/lib.rs:25-26 | The lines of chunks 0 to n - 1, in chunk order, are exactly the buffer's lines that start in [0, n * chunk size], each once and in order. |
| Chunks.ChunksCoverAll | src/chunks.rs:72-112 | When n chunks span the buffer, their lines in chunk order are the buffer's lines, each once and in order. This is the line-coverage property the chunk test checks. |
| Chunks.AllLinesSplit | src/lib.rs:25-26 | The buffer's lines are those of the first i chunks, followed by those of chunk i read to the end of the buffer. |
| Chunks.ChunkedToEndCoversAll | src/lib.rs:22-26 | When the last chunk reads to the end of the buffer, the chunks' lines are all the buffer's lines, for any chunk size and count that can be laid. |
| KeyFinding.WrappingSub | src/key_finder.rs:21 | `wrapping_sub` stays within usize and is subtraction modulo 2^64: r + b ≡ a. |
| KeyFinding.Max | src/key_finder.rs:10-12 | The last requested number after the sort is one of them and the largest. |
| KeyFinding.SelectedSpec | src/key_finder.rs:9-15 | The kept 0-based field indices are ascending, and x is kept exactly when x + 1 was requested. |
| KeyFinding.PositionsOfGaps | src/key_finder.rs:17-24 | The gaps between the kept indices give back those indices when summed along the walk. |
| KeyFinding.GapsOfPositions | src/key_finder.rs:17-24 | Any table of gaps gives ascending positions, whose gaps are that table. |
| KeyFinding.TableStep | src/key_finder.rs:19-24 | One pass of the loop over the mask keeps the table equal to the gaps of the indices kept so far, and `last` equal to the last of them (usize::MAX while there is none). |
| KeyFinding.KeptGap | src/key_finder.rs:21 | The doubly wrapped subtraction pushes the new index's gap, including for the first index, where `last` is usize::MAX. |
| KeyFinding.New | src/key_finder.rs:8-28 | `None` stays `None`. Otherwise the table is the gaps between the selected ascending 0-based indices, with the last of them (usize::MAX when none is selected). |
| KeyFinding.SingleSelection | src/key_finder.rs:8-28 | Requesting the single field f + 1 selects index f. The table is `([f], f)`. |
| KeyFinding.SplitNAgrees | src/key_finder.rs:38 | A split bounded to n pieces has exactly the first n - 1 fields of the full split. |
| KeyFinding.FieldsHaveNoSep | src/key_finder.rs:38 | No field of the split holds a space or a tab. |
| KeyFinding.SplitJoin | src/key_finder.rs:38 | Joining the fields of the split with single spaces gives back the record, with its tabs turned into spaces. |
| KeyFinding.JoinSplit | src/key_finder.rs:38 | Splitting fields joined with single spaces gives back those fields, when none holds a separator. |
| KeyFinding.FieldsAgree | src/key_finder.rs:38-40 | The split bounded to last + 2 pieces has field `last` exactly when the full split does, and it agrees with the full split on every field up to `last`. |
| KeyFinding.WalkOutcome | src/key_finder.rs:39-56 | The walk reaches every selected field exactly when the record has field `last`, and it then picks the same fields as the full split. |
| KeyFinding.Key | src/key_finder.rs:30-57 | `key` computes `KeyOf`. Without a table the key is the record and the buffer is unchanged. A successful key with a table is the whole buffer, and the buffer only grows. |
| KeyFinding.KeySelects | src/key_finder.rs:30-57 | For a finder built from a request: with nothing selected the key is the record. Otherwise `key` fails exactly when the record lacks the last selected field. On success the key is the buffer followed by the selected fields of the full split, ascending and joined with single spaces. |
| KeyFinding.SingleFieldKey | src/key_finder.rs:30-57 | For the single-field finder of field f + 1 and a record made of separator-free fields: the key is that field when the record has it, and an error otherwise. |
| KeyFinding.PrintableSepFree | src/key_finder.rs:38 | Printable ASCII text (no space, tab or control character) is a single field. |
| KeyFinding.TestFieldsSepFree | src/key_finder.rs:75 | No field of the unit test's access-log line holds a separator. |
| KeyFinding.KeyTest | src/key_finder.rs:64-75 | Finders built by `new` for fields 1, 7 and 9 key the unit test's access-log line, into a cleared buffer, as "92.109.155.34", "/" and "200". |
| Counting.ByteLessTotal | src/counter.rs:82 | Lexicographic byte order on keys is a strict total order. |
| Counting.LessTotal | src/counter.rs:79-83 | `KeyCount`'s derived order (count, then key) is irreflexive, total and asymmetric. |
| Counting.LessTrans | src/counter.rs:79-83 | `KeyCount`'s derived order is transitive. |
| Counting.Sort | src/counter.rs:63 | The sort is ascending and a permutation of its input. |
| Counting.ReverseSorted | src/counter.rs:64 | Reversing an ascending sequence gives a descending permutation. |
| Counting.Truncate | src/counter.rs:65-67 | Truncation keeps a prefix of length min(n, length). |
| Counting.Entries | src/counter.rs:56-61 | The loop over a map collects each (count, key) entry exactly once. |
| Counting.EntriesSorted | src/counter.rs:56-63 | Sorting the entries gives the same sequence whatever order the map yields them in. |
| Counting.TopOfSpec | src/counter.rs:54-69 | The report holds distinct entries of the table, largest first, min(num, size) of them (all when num is 0). Every entry left out is smaller than every entry reported. |
| Counting.Retain | src/counter.rs:51 | Exactly the entries above the threshold stay, with their counts. |
| Counting.SortedNth | src/counter.rs:47-49 | Index num - 1 of the ascending entries has the num-th smallest count. |
| Counting.NthCountUnique | src/counter.rs:48-49 | The num-th smallest count is unique, so the unstable sort's order among ties does not change the threshold. |
| Counting.CompactionThreshold | src/counter.rs:47-49 | Sorting the table's values and taking index num - 1 gives the num-th smallest count. |
| Counting.CompactKeepsAtMost | src/counter.rs:47-51 | Compacting a table of 2 * num entries at its num-th smallest count keeps at most num entries. |
| Counting.AddBelow | src/counter.rs:33-35 | A count below the threshold leaves `top` and the threshold alone and keeps the counter coherent. |
| Counting.AddKept | src/counter.rs:37-45 | A count at or above the threshold is written to `top` and keeps the counter coherent while `top` stays under 2 * num entries. |
| Counting.AddCompacted | src/counter.rs:47-51 | When `top` reaches 2 * num entries, compaction raises the threshold to the num-th smallest count. It keeps only the entries above it, at most num of them, and the counter stays coherent. |
| Counting.PromotedKeeps | src/counter.rs:21-52 | Whichever of the three cases `add` takes, a coherent counter stays coherent under the new count, the threshold never falls (nor moves when num is 0), and a counter that has compacted nothing still has not while fewer than 2 * num keys are counted. |
| Counting.TiedCompactionEmpties | src/counter.rs:47-51 | With num = 1 and two keys counted once each, compaction empties `top`, although keys have been counted. |
| Counting.TopReportsExact | src/counter.rs:54-69 | On a coherent counter, every reported count is the key's exact count, and no left-out key has a larger exact count than a reported one. |
| Counting.TopReportsAbove | src/counter.rs:54-69 | On a coherent counter, `top()` reports num entries, or else every key whose exact count is above the threshold. |
| Counting.TopReportsAll | src/counter.rs:54-69 | `top()` reports num entries, or else every entry of `top`. |
| Counting.TopLeavesOutOutranked | src/counter.rs:21-69 | On a coherent counter with num ≥ 1 whose counts are all positive, every key `top()` leaves out has at least num other keys whose exact counts are at least its own. |
| Counting.TopOfExample | src/counter.rs:54-69 | With num = 2 and three keys a, b, c counted 4, 3 and 1 times, `top()` reports exactly (4, a), (3, b). |
| Counting.MergeCounts | src/counter.rs:71-77 | Merged counts have the union of the keys, and each count is the sum of the two. |
| Counting.MergeCountsLaws | src/lib.rs:40 | Merging exact counts is commutative and associative, with the empty map as its identity. |
| Counting.AddAllMerges | src/counter.rs:72-74 | Adding the entries of a map one by one, in any order, yields the merged counts. |
| Counting.Counter.constructor | src/counter.rs:13-19 | A new counter is empty and has compacted nothing. `None` gives num 0 and threshold u64::MAX; `Some(n)` gives num n and threshold 0. |
| Counting.Counter.Add | src/counter.rs:21-52 | The key's exact count grows by `added` and no other count changes. `top` and the threshold change as described by `AddBelow`, `AddKept` and `AddCompacted`, the counter stays coherent, and the threshold never falls. While fewer than 2 * num keys are counted, the threshold stays 0 and `top` holds every count. |
| Counting.Counter.Top | src/counter.rs:54-69 | `top()` returns the table's distinct entries largest first, min(num, size) of them, and every entry left out is smaller than every entry reported. |
| Counting.AtLeastGrows | src/counter.rs:21-31 | Raising one count never lowers the number of keys counted at least t times. |
| Counting.CompactedAtLeast | src/counter.rs:47-51 | After a compaction of 2 * num entries at their num-th smallest count t, more than num keys are counted at least t times. |
| Counting.Counter.AddSum | src/counter.rs:73 | One `add` of an entry keeps the counter coherent and leaves exactly the counts plus that entry. |
| Counting.Counter.AddEntry | src/counter.rs:73 | Adding the entry at i extends the running sum over the entries by that entry. |
| Counting.Counter.Merge | src/counter.rs:71-77 | After `merge`, the exact counts are the key-wise sums of both counters, and the counter stays coherent. While fewer than 2 * num keys are counted, the threshold stays 0 and `top` holds every count. |
| TopFew.Bump | src/lib.rs:35 | Counting one occurrence of k adds one to k's count and changes no other count. |
| TopFew.Counted | src/lib.rs:33-36 | A line adds one to the count of its key, and changes nothing when `key` fails. |
| TopFew.TallyCat | src/lib.rs:29-40 | Counting two runs of lines one after the other is counting their concatenation. |
| TopFew.TallyFrom | src/lib.rs:29-40 | Counting from existing counts is counting from nothing and merging those counts in. |
| TopFew.MergeCat | src/lib.rs:40 | The merged counts of two runs of lines are the counts of the one run after the other. |
| TopFew.TallyBound | src/lib.rs:35 | No key is counted more often than there are lines, which bounds every count below u64::MAX. |
| TopFew.CountLine | src/lib.rs:33-36 | One pass of the line loop leaves the chunk counter's counts as `Counted` says. |
| TopFew.CountChunk | src/lib.rs:29-39 | A chunk's counter holds the exact key counts of the chunk's lines. |
| TopFew.ChunkFits | src/lib.rs:26 | The slice the source hands chunk i, from i * chunk_size on, is the one the chunk layout uses, and it holds a '\n' when i > 0. |
| TopFew.ChunkStep | src/lib.rs:40 | Merging chunk i's counts into those of chunks 0 to i - 1 gives those of chunks 0 to i, without exceeding the buffer length. |
| TopFew.ChunksLayable | src/lib.rs:21-26 | With chunk_size = len / cpus, all chunks can be laid when the last chunk's bytes hold a '\n'. |
| TopFew.CountAndMerge | src/lib.rs:25-40 | Counting chunk n - 1 and merging it in gives the exact counts of the first n chunks, and compacts nothing while fewer than 2 * num keys are counted. |
| TopFew.CountChunks | src/lib.rs:25-40 | The reduction over n chunks yields a coherent counter, bounded by num, holding the exact counts of the chunks' lines; with fewer than 2 * num keys its `top` is all of them and its threshold 0. |
| TopFew.TallyPositive | src/lib.rs:33-36 | Every key counted from positive counts has a positive count. |
| TopFew.Report | src/lib.rs:42 | The final `top()` reports, of the exact counts, at most num keys, each once with its exact count, largest first, none left out with a larger count. Every key left out has at least num others counted at least as often. It reports num keys or every key counted more often than the threshold, and with fewer than 2 * num keys exactly the num largest entries. |
| TopFew.CountCovered | src/lib.rs:21-40 | With one chunk of len / cpus bytes per CPU, the reduction yields a coherent counter, bounded by num, holding the exact counts of the lines starting at or before cpus * (len / cpus). |
| TopFew.TopFewFromStream | src/lib.rs:15-43 | The answer reports the exact counts of the lines starting at or before cpus * (len / cpus): at most num keys, each once with its exact count, largest first, and none left out with a larger count. Every key left out has at least num other keys counted at least as often. With fewer than 2 * num distinct keys it is exactly the min(num, keys) largest entries. |
| TopFew.TailLineDropped | src/lib.rs:22-26 | On "aaaa\nb\n" with four CPUs, the chunks can be laid, yet the line "b" lies in no chunk's window. |
| TopFew.CpuChunksLayable | src/lib.rs:21-26 | With chunk_size = len / cpus, all cpus chunks, and all but the last, can be laid when the last chunk's bytes hold a '\n'. |
| TopFew.CountAndMergeLast | src/lib.rs:25-40 | Counting the first n - 1 chunks into a counter bounded by num, then reading the last chunk to the end of the buffer and merging it in, gives a coherent counter with the exact counts of all the buffer's lines, which compacts nothing while fewer than 2 * num keys are counted. |
| TopFew.CountChunksToEnd | src/lib.rs:25-40 | With the last chunk read to the end, the reduction yields the exact counts of all the buffer's lines, and compacts nothing while fewer than 2 * num keys are counted. |
| TopFew.TopFewFromStreamToEnd | src/lib.rs:15-43 | With the last chunk read to the end, the answer reports the exact counts of all the file's lines, with the same guarantees as above, including exactly the min(num, keys) largest entries when fewer than 2 * num keys are counted. |

## Left out

- I/O: opening and memory-mapping the file, `file.metadata()` and `num_cpus::get()`. The buffer and the CPU count are parameters.
- The rayon parallel map and reduction are taken as a sequential fold in chunk order, starting from one `Counter::new(Some(num))`. Rayon may instead merge chunks into several such counters and then merge those. `Counting.MergeCountsLaws` shows that the exact counts do not depend on grouping or order. The pruned `top` table and the threshold can, but `Counting.Counter.Merge` takes any counter as its argument and keeps the invariant, so `Counting.TopReportsExact`, `Counting.TopReportsAbove` and `Counting.TopLeavesOutOutranked` hold for every grouping.
- UTF-8 validation (`from_utf8(...).unwrap()`) and the '\r' that `str::lines` drops before a '\n' are not modelled. Text is bytes, and a line ends at '\n' only.
- Counting.Counter.Add: 64-bit overflow of the counts is not modelled. Callers must keep every count within u64::MAX, and `TopFew.TallyBound` shows the pipeline does, since counts are bounded by the number of lines.
- Panics are preconditions:
  - a non-first chunk whose bytes hold no '\n' indexes past their end;
  - an empty request makes `KeyFinder::new` unwrap `None`;
  - a requested field number equal to usize::MAX makes `KeyFinder::new` build `(0..=usize::MAX)` into a vector of usize::MAX + 1 flags, which cannot be allocated, so `KeyFinding.New` requires every number below usize::MAX;
  - an unbounded counter (num 0) whose count reaches u64::MAX would index `top_values[num - 1]` with num 0;
  - with num 0, the final counter of `top_few_from_stream` compacts on its first key and indexes `top_values[num - 1]`, so num ≥ 1 is required.
- `sort_unstable` of the bare values in compaction is modelled by sorting (count, key) entries and taking the count at index num - 1. Both give the same ascending values.
- The iteration order of the hash maps is left open: `Counting.Entries` may return the entries in any order, and `Counting.EntriesSorted` and `Counting.AddAllMerges` show the results do not depend on it.
- The reused `String` buffer `s` is cleared before every line, so the pipeline calls `key` with an empty buffer. `KeyFinding.Key` itself takes any buffer.
- The quickcheck test in src/chunks.rs drives a `Chunker` that is not part of this model. Its line-coverage property is stated over `Chunk` directly (`Chunks.ChunksCoverAll`).

## Findings

| source | as written | input that shows it | evidently intended | confidence | as-written member | corrected member |
|---|---|---|---|---|---|---|
| src/lib.rs:22-26 | Every chunk, including the last, stops after lines that start past its nominal size, chunk_size = len / cpus. Lines that start after cpus * (len / cpus), in the last len % cpus bytes, are counted by no chunk. | The file "aaaa\nb\n" (7 bytes) with 4 CPUs gives chunk size 1. The line "b" starts at byte 5, beyond 4 * 1, and is never counted. | Every line of the file is counted once: the last chunk reads to the end of the file. | not executed | TopFew.TopFewFromStream, TopFew.TailLineDropped | TopFew.TopFewFromStreamToEnd, Chunks.ChunkedToEndCoversAll |
