/** The `Counter` of src/counter.rs: exact counts per key, plus a pruned map
    `top` of the keys whose counts have reached a rising `threshold`, from
    which the few largest are reported; and the `KeyCount` pairs it reports,
    ordered as `#[derive(Ord)]` orders them. */
module Counting {
  import opened Bytes

  /** A reported pair; the derived order compares `count`, then `key`. */
  datatype KeyCount = KeyCount(count: nat, key: seq<byte>)

  /** `Ord` on `String`: byte-wise lexicographic, a proper prefix first. */
  predicate ByteLess(a: seq<byte>, b: seq<byte>)
    decreases |a|
  {
    if a == [] then b != []
    else if b == [] then false
    else a[0] < b[0] || (a[0] == b[0] && ByteLess(a[1..], b[1..]))
  }

  /** The byte order is a strict total order. */
  lemma {:induction false} ByteLessIrrefl(a: seq<byte>)
    ensures !ByteLess(a, a)
    decreases |a|
  {
    if a != [] {
      ByteLessIrrefl(a[1..]);
    }
  }

  lemma {:induction false} ByteLessTotal(a: seq<byte>, b: seq<byte>)
    ensures a == b || ByteLess(a, b) || ByteLess(b, a)
    ensures !(ByteLess(a, b) && ByteLess(b, a))
    decreases |a|
  {
    if a != [] && b != [] {
      ByteLessTotal(a[1..], b[1..]);
      if a[0] == b[0] && a[1..] == b[1..] {
        assert a == [a[0]] + a[1..] && b == [b[0]] + b[1..];
      }
    }
  }

  lemma {:induction false} ByteLessTrans(a: seq<byte>, b: seq<byte>, c: seq<byte>)
    requires ByteLess(a, b) && ByteLess(b, c)
    ensures ByteLess(a, c)
    decreases |a|
  {
    if a != [] && a[0] == b[0] && b[0] == c[0] {
      ByteLessTrans(a[1..], b[1..], c[1..]);
    }
  }

  /** `<` on `KeyCount`, as derived: by count, ties by key. */
  predicate Less(x: KeyCount, y: KeyCount)
  {
    x.count < y.count || (x.count == y.count && ByteLess(x.key, y.key))
  }

  predicate LessEq(x: KeyCount, y: KeyCount)
  {
    x == y || Less(x, y)
  }

  /** The derived order is a strict total order: exactly one of x < y,
      x == y, y < x holds. */
  lemma {:induction false} LessTotal(x: KeyCount, y: KeyCount)
    ensures !Less(x, x)
    ensures x == y || Less(x, y) || Less(y, x)
    ensures !(Less(x, y) && Less(y, x))
  {
    ByteLessTotal(x.key, y.key);
    ByteLessIrrefl(x.key);
  }

  lemma {:induction false} LessTrans(x: KeyCount, y: KeyCount, z: KeyCount)
    requires Less(x, y) && Less(y, z)
    ensures Less(x, z)
  {
    if x.count == y.count == z.count {
      ByteLessTrans(x.key, y.key, z.key);
    }
  }

  lemma {:induction false} LessEqTrans(x: KeyCount, y: KeyCount, z: KeyCount)
    requires LessEq(x, y) && LessEq(y, z)
    ensures LessEq(x, z)
  {
    if x != y && y != z {
      LessTrans(x, y, z);
    }
  }

  predicate SortedAsc(s: seq<KeyCount>)
  {
    forall i, j :: 0 <= i < j < |s| ==> LessEq(s[i], s[j])
  }

  predicate SortedDesc(s: seq<KeyCount>)
  {
    forall i, j :: 0 <= i < j < |s| ==> LessEq(s[j], s[i])
  }

  /** One step of an insertion sort. */
  function Insert(x: KeyCount, s: seq<KeyCount>): (r: seq<KeyCount>)
    requires SortedAsc(s)
    ensures SortedAsc(r) && multiset(r) == multiset(s) + multiset{x}
  {
    if s == [] then [x]
    else if LessEq(x, s[0]) then
      InsertFront(x, s);
      [x] + s
    else
      var t := Insert(x, s[1..]);
      InsertBehind(x, s, t);
      [s[0]] + t
  }

  lemma {:induction false} InsertFront(x: KeyCount, s: seq<KeyCount>)
    requires s != [] && SortedAsc(s) && LessEq(x, s[0])
    ensures SortedAsc([x] + s)
  {
    forall j | 0 < j < |[x] + s| ensures LessEq(x, ([x] + s)[j]) {
      LessEqTrans(x, s[0], s[j - 1]);
    }
  }

  lemma {:induction false} InsertBehind(x: KeyCount, s: seq<KeyCount>, t: seq<KeyCount>)
    requires s != [] && SortedAsc(s) && !LessEq(x, s[0])
    requires SortedAsc(t) && multiset(t) == multiset(s[1..]) + multiset{x}
    ensures SortedAsc([s[0]] + t) && multiset([s[0]] + t) == multiset(s) + multiset{x}
  {
    LessTotal(x, s[0]);
    assert s == [s[0]] + s[1..];
    forall j | 0 <= j < |t| ensures LessEq(s[0], t[j]) {
      assert t[j] in multiset(t);
      if t[j] != x {
        assert t[j] in multiset(s[1..]);
        var i :| 0 <= i < |s[1..]| && s[1..][i] == t[j];
        assert s[i + 1] == t[j];
      }
    }
  }

  /** `sort_unstable`: the entries in ascending order. */
  function Sort(v: seq<KeyCount>): (r: seq<KeyCount>)
    ensures SortedAsc(r) && multiset(r) == multiset(v)
  {
    if v == [] then []
    else
      assert v == [v[0]] + v[1..];
      Insert(v[0], Sort(v[1..]))
  }

  /** `reverse`. */
  function Reverse(s: seq<KeyCount>): (r: seq<KeyCount>)
    ensures |r| == |s| && forall i :: 0 <= i < |s| ==> r[i] == s[|s| - 1 - i]
  {
    seq(|s|, i requires 0 <= i < |s| => s[|s| - 1 - i])
  }

  /** Reversing an ascending sequence gives a descending one with the same
      elements. */
  lemma {:induction false} ReverseSorted(s: seq<KeyCount>)
    requires SortedAsc(s)
    ensures SortedDesc(Reverse(s)) && multiset(Reverse(s)) == multiset(s)
  {
    var r := Reverse(s);
    forall i, j | 0 <= i < j < |r| ensures LessEq(r[j], r[i]) {
      assert r[j] == s[|s| - 1 - j] && r[i] == s[|s| - 1 - i];
    }
    ReverseMultiset(s);
  }

  lemma {:induction false} ReverseMultiset(s: seq<KeyCount>)
    ensures multiset(Reverse(s)) == multiset(s)
    decreases |s|
  {
    if s != [] {
      var t := s[1..];
      ReverseMultiset(t);
      assert Reverse(s) == Reverse(t) + [s[0]];
      assert s == [s[0]] + t;
    }
  }

  /** `truncate(n)`: the first n elements, when there are more. */
  function Truncate(s: seq<KeyCount>, n: nat): (r: seq<KeyCount>)
    ensures r <= s && |r| == if |s| > n then n else |s|
  {
    if |s| > n then s[..n] else s
  }

  /** A map from keys to counts, as `AHashMap<String, u64>`. */
  type Counts = map<seq<byte>, nat>

  /** The count of a key, 0 when absent. */
  function Get(m: Counts, k: seq<byte>): nat
  {
    if k in m then m[k] else 0
  }

  /** v lists the entries of m, each exactly once, in some order. */
  ghost predicate EntriesOf(m: Counts, v: seq<KeyCount>)
  {
    (forall x :: x in v <==> x.key in m && m[x.key] == x.count) &&
    (forall i, j :: 0 <= i < j < |v| ==> v[i].key != v[j].key)
  }

  /** One enumeration of the entries of m. */
  ghost function Enum(m: Counts): seq<KeyCount>
    decreases |m|
  {
    if m == map[] then []
    else
      var k :| k in m;
      [KeyCount(m[k], k)] + Enum(m - {k})
  }

  lemma {:induction false} EnumEntries(m: Counts)
    ensures EntriesOf(m, Enum(m)) && |Enum(m)| == |m|
    decreases |m|
  {
    if m != map[] {
      var e := Enum(m);
      var k := e[0].key;
      var rest := m - {k};
      assert k in m && e == [KeyCount(m[k], k)] + Enum(rest);
      EnumEntries(rest);
      assert e[1..] == Enum(rest);
    }
  }

  /** In a list of entries with distinct keys every element occurs once. */
  lemma {:induction false} DistinctOnce(v: seq<KeyCount>)
    requires forall i, j :: 0 <= i < j < |v| ==> v[i].key != v[j].key
    ensures forall x :: multiset(v)[x] == if x in v then 1 else 0
    decreases |v|
  {
    if v != [] {
      var t := v[1..];
      DistinctOnce(t);
      assert v == [v[0]] + t;
      assert v[0] !in t by {
        forall j | 0 <= j < |t| ensures t[j] != v[0] {
          assert t[j] == v[j + 1];
        }
      }
    }
  }

  /** Any two enumerations of the same map hold the same elements. */
  lemma {:induction false} EntriesMultiset(m: Counts, v: seq<KeyCount>, w: seq<KeyCount>)
    requires EntriesOf(m, v) && EntriesOf(m, w)
    ensures multiset(v) == multiset(w)
  {
    DistinctOnce(v);
    DistinctOnce(w);
    assert forall x :: multiset(v)[x] == multiset(w)[x];
  }

  /** An element occurring twice is counted twice. */
  lemma {:induction false} TwiceCounted(s: seq<KeyCount>, i: nat, j: nat)
    requires i < j < |s| && s[i] == s[j]
    ensures multiset(s)[s[i]] >= 2
  {
    assert s == s[..j] + [s[j]] + s[j + 1..];
    assert s[i] in s[..j];
  }

  /** A sorted arrangement of given elements is unique. */
  lemma {:induction false} SortedUnique(a: seq<KeyCount>, b: seq<KeyCount>)
    requires SortedAsc(a) && SortedAsc(b) && multiset(a) == multiset(b)
    ensures a == b
    decreases |a|
  {
    assert |a| == |multiset(a)| == |b|;
    if a != [] {
      SameLeast(a, b);
      SortedTail(a);
      SortedTail(b);
      SortedUnique(a[1..], b[1..]);
      assert a == [a[0]] + a[1..] && b == [b[0]] + b[1..];
    }
  }

  /** Two sorted arrangements of the same elements start alike. */
  lemma {:induction false} SameLeast(a: seq<KeyCount>, b: seq<KeyCount>)
    requires SortedAsc(a) && SortedAsc(b) && multiset(a) == multiset(b) && a != [] && b != []
    ensures a[0] == b[0]
  {
    assert a[0] in multiset(b) && b[0] in multiset(a);
    var i :| 0 <= i < |b| && b[i] == a[0];
    var j :| 0 <= j < |a| && a[j] == b[0];
    assert LessEq(b[0], a[0]) && LessEq(a[0], b[0]);
    LessTotal(a[0], b[0]);
  }

  /** The tail of a sorted sequence is sorted and holds the other elements. */
  lemma {:induction false} SortedTail(s: seq<KeyCount>)
    requires SortedAsc(s) && s != []
    ensures SortedAsc(s[1..]) && multiset(s[1..]) == multiset(s) - multiset{s[0]}
  {
    assert s == [s[0]] + s[1..];
    forall i, j | 0 <= i < j < |s[1..]| ensures LessEq(s[1..][i], s[1..][j]) {
      assert s[1..][i] == s[i + 1] && s[1..][j] == s[j + 1];
    }
  }

  /** The entries of m in ascending order. */
  ghost function Ascending(m: Counts): seq<KeyCount>
  {
    Sort(Enum(m))
  }

  /** Sorting any enumeration of m gives `Ascending(m)`: the order in which
      a hash map yields its entries does not show after the sort. */
  lemma {:induction false} EntriesSorted(m: Counts, v: seq<KeyCount>)
    requires EntriesOf(m, v)
    ensures Sort(v) == Ascending(m)
  {
    EnumEntries(m);
    EntriesMultiset(m, v, Enum(m));
    SortedUnique(Sort(v), Sort(Enum(m)));
  }

  /** `Ascending(m)` is sorted and enumerates m. */
  lemma {:induction false} AscendingEntries(m: Counts)
    ensures SortedAsc(Ascending(m)) && EntriesOf(m, Ascending(m)) && |Ascending(m)| == |m|
  {
    var a := Ascending(m);
    var e := Enum(m);
    EnumEntries(m);
    DistinctOnce(e);
    assert forall x :: x in a <==> x in e by {
      forall x ensures x in a <==> x in e {
        assert x in a <==> x in multiset(a);
      }
    }
    assert |a| == |multiset(a)| == |e|;
    forall i, j | 0 <= i < j < |a| ensures a[i].key != a[j].key {
      if a[i].key == a[j].key {
        assert a[i] in e && a[j] in e;
        TwiceCounted(a, i, j);
      }
    }
  }

  /** What `top()` returns for a pruned map m: the entries in descending
      order, cut to `num` when `num` is positive. */
  ghost function TopOf(m: Counts, num: nat): seq<KeyCount>
  {
    var d := Reverse(Ascending(m));
    if num > 0 then Truncate(d, num) else d
  }

  /** `top()` reports distinct entries of m, largest first, min(num, |m|)
      of them (all of them when num is 0), and every entry it leaves out is
      smaller than every entry it reports. */
  lemma {:induction false} TopOfSpec(m: Counts, num: nat)
    ensures var r := TopOf(m, num);
      SortedDesc(r) &&
      |r| == (if num > 0 && |m| > num then num else |m|) &&
      (forall x :: x in r ==> x.key in m && m[x.key] == x.count) &&
      (forall i, j :: 0 <= i < j < |r| ==> r[i].key != r[j].key) &&
      (forall k :: k in m && KeyCount(m[k], k) !in r ==> forall x :: x in r ==> Less(KeyCount(m[k], k), x))
  {
    var a := Ascending(m);
    AscendingEntries(m);
    var d := Reverse(a);
    DescendingEntries(m, a, d);
    var r := TopOf(m, num);
    PrefixEntries(m, d, r);
    PrefixBest(m, d, r);
  }

  /** The reversed ascending entries are the entries, descending. */
  lemma {:induction false} DescendingEntries(m: Counts, a: seq<KeyCount>, d: seq<KeyCount>)
    requires SortedAsc(a) && EntriesOf(m, a) && |a| == |m| && d == Reverse(a)
    ensures SortedDesc(d) && EntriesOf(m, d) && |d| == |m|
  {
    ReverseSorted(a);
    forall x ensures x in d <==> x in a {
      assert x in d <==> x in multiset(d);
      assert x in a <==> x in multiset(a);
    }
    forall i, j | 0 <= i < j < |d| ensures d[i].key != d[j].key {
      assert d[i] == a[|a| - 1 - i] && d[j] == a[|a| - 1 - j];
    }
  }

  /** A prefix of a descending enumeration is descending, and lists
      distinct entries. */
  lemma {:induction false} PrefixEntries(m: Counts, d: seq<KeyCount>, r: seq<KeyCount>)
    requires SortedDesc(d) && EntriesOf(m, d) && r <= d
    ensures SortedDesc(r)
    ensures forall x :: x in r ==> x.key in m && m[x.key] == x.count
    ensures forall i, j :: 0 <= i < j < |r| ==> r[i].key != r[j].key
  {
    forall x | x in r ensures x in d {
      var q :| 0 <= q < |r| && r[q] == x;
      assert d[q] == x;
    }
  }

  /** An entry missing from a prefix of a descending enumeration is below
      every entry in the prefix. */
  lemma {:induction false} PrefixBest(m: Counts, d: seq<KeyCount>, r: seq<KeyCount>)
    requires SortedDesc(d) && EntriesOf(m, d) && r <= d
    ensures forall k :: k in m && KeyCount(m[k], k) !in r ==> forall x :: x in r ==> Less(KeyCount(m[k], k), x)
  {
    forall k, x | k in m && KeyCount(m[k], k) !in r && x in r
      ensures Less(KeyCount(m[k], k), x)
    {
      var e := KeyCount(m[k], k);
      assert e in d;
      var p :| 0 <= p < |d| && d[p] == e;
      var q :| 0 <= q < |r| && r[q] == x;
      assert d[q] == x;
      assert p >= |r|;
      assert LessEq(e, x);
    }
  }

  /** The entries of m above t. */
  function Retain(m: Counts, t: nat): (r: Counts)
    ensures forall k :: k in r <==> k in m && m[k] > t
    ensures forall k :: k in r ==> r[k] == m[k]
  {
    map k | k in m && m[k] > t :: m[k]
  }

  /** The keys of a list of entries. */
  function KeysOf(s: seq<KeyCount>): set<seq<byte>>
  {
    set x | x in s :: x.key
  }

  lemma {:induction false} KeysOfSize(s: seq<KeyCount>)
    ensures |KeysOf(s)| <= |s|
    decreases |s|
  {
    if s != [] {
      KeysOfSize(s[1..]);
      assert KeysOf(s) == {s[0].key} + KeysOf(s[1..]);
    }
  }

  lemma {:induction false} SubsetSize<T>(a: set<T>, b: set<T>)
    requires a <= b
    ensures |a| <= |b|
  {
    assert b == a + (b - a);
  }

  /** A list of entries with distinct keys has as many keys as entries. */
  lemma {:induction false} KeysOfDistinct(s: seq<KeyCount>)
    requires forall i, j :: 0 <= i < j < |s| ==> s[i].key != s[j].key
    ensures |KeysOf(s)| == |s|
    decreases |s|
  {
    if s != [] {
      var t := s[1..];
      forall i, j | 0 <= i < j < |t| ensures t[i].key != t[j].key {
        assert t[i] == s[i + 1] && t[j] == s[j + 1];
      }
      KeysOfDistinct(t);
      forall x | x in t ensures x.key != s[0].key {
        var q :| 0 <= q < |t| && t[q] == x;
        assert s[q + 1] == x;
      }
      assert KeysOf(s) == {s[0].key} + KeysOf(t);
    }
  }

  /** The keys of m whose counts are at most t, and those whose counts are
      below t. */
  function AtMost(m: Counts, t: nat): set<seq<byte>>
  {
    set k | k in m && m[k] <= t
  }

  function Below(m: Counts, t: nat): set<seq<byte>>
  {
    set k | k in m && m[k] < t
  }

  /** t is the num-th smallest of the counts in m, counted with
      multiplicity: it is one of them, fewer than num of them are below it
      and at least num are at most it. */
  ghost predicate NthCount(m: Counts, num: nat, t: nat)
  {
    (exists k :: k in m && m[k] == t) && |Below(m, t)| < num <= |AtMost(m, t)|
  }

  /** The num-th smallest count is unique. */
  lemma {:induction false} NthCountUnique(m: Counts, num: nat, t1: nat, t2: nat)
    requires NthCount(m, num, t1) && NthCount(m, num, t2)
    ensures t1 == t2
  {
    if t1 < t2 {
      assert AtMost(m, t1) <= Below(m, t2);
      SubsetSize(AtMost(m, t1), Below(m, t2));
    } else if t2 < t1 {
      assert AtMost(m, t2) <= Below(m, t1);
      SubsetSize(AtMost(m, t2), Below(m, t1));
    }
  }

  /** In an ascending enumeration of m, the count at position num - 1 is
      the num-th smallest count: what `top_values[num - 1]` reads after
      `sort_unstable`. */
  lemma {:induction false} SortedNth(m: Counts, a: seq<KeyCount>, num: nat)
    requires SortedAsc(a) && EntriesOf(m, a) && 1 <= num <= |a|
    ensures NthCount(m, num, a[num - 1].count)
  {
    var t := a[num - 1].count;
    assert a[num - 1] in a;
    var low := a[..num];
    forall k | k in KeysOf(low) ensures k in AtMost(m, t) {
      var x :| x in low && x.key == k;
      var q :| 0 <= q < num && low[q] == x;
      assert a[q] == x && x in a;
      assert q < num - 1 ==> LessEq(a[q], a[num - 1]);
    }
    forall i, j | 0 <= i < j < |low| ensures low[i].key != low[j].key {
      assert low[i] == a[i] && low[j] == a[j];
    }
    KeysOfDistinct(low);
    SubsetSize(KeysOf(low), AtMost(m, t));
    var lower := a[..num - 1];
    forall k | k in Below(m, t) ensures k in KeysOf(lower) {
      var e := KeyCount(m[k], k);
      assert e in a;
      var p :| 0 <= p < |a| && a[p] == e;
      assert num - 1 < p ==> LessEq(a[num - 1], a[p]);
      assert lower[p] == e;
    }
    SubsetSize(Below(m, t), KeysOf(lower));
    KeysOfSize(lower);
  }

  /** Compaction: with 2 * num entries, keeping only the entries strictly
      above the num-th smallest count leaves at most num of them. */
  lemma {:induction false} CompactKeepsAtMost(m: Counts, num: nat, t: nat)
    requires |m| == 2 * num && NthCount(m, num, t)
    ensures |Retain(m, t)| <= num
  {
    var r := Retain(m, t);
    assert m.Keys == r.Keys + AtMost(m, t);
    assert r.Keys * AtMost(m, t) == {};
  }

  /** Two maps of counts added key by key. */
  function MergeCounts(a: Counts, b: Counts): (r: Counts)
    ensures r.Keys == a.Keys + b.Keys
    ensures forall k :: Get(r, k) == Get(a, k) + Get(b, k)
  {
    map k | k in a.Keys + b.Keys :: Get(a, k) + Get(b, k)
  }

  /** Two maps of counts with the same keys and the same counts are equal. */
  lemma {:induction false} SameCounts(l: Counts, r: Counts)
    requires l.Keys == r.Keys && forall k :: Get(l, k) == Get(r, k)
    ensures l == r
  {
    assert forall k :: k in l ==> l[k] == Get(l, k);
  }

  /** Merging is commutative and associative and the empty map is its unit,
      so a reduction of counters yields the same exact counts in whatever
      order and grouping it combines them. */
  lemma {:induction false} MergeCountsLaws(a: Counts, b: Counts, c: Counts)
    ensures MergeCounts(a, b) == MergeCounts(b, a)
    ensures MergeCounts(MergeCounts(a, b), c) == MergeCounts(a, MergeCounts(b, c))
    ensures MergeCounts(a, map[]) == a
  {
    SameCounts(MergeCounts(a, b), MergeCounts(b, a));
    SameCounts(MergeCounts(MergeCounts(a, b), c), MergeCounts(a, MergeCounts(b, c)));
    SameCounts(MergeCounts(a, map[]), a);
  }

  /** The counts after adding the first i entries of s one after the
      other, as the loop of `merge` adds them. */
  function AddAll(a: Counts, s: seq<KeyCount>, i: nat): Counts
    requires i <= |s|
  {
    if i == 0 then a
    else
      var m := AddAll(a, s, i - 1);
      m[s[i - 1].key := Get(m, s[i - 1].key) + s[i - 1].count]
  }

  /** One more entry added to the running sum. */
  lemma {:induction false} AddAllNext(a: Counts, s: seq<KeyCount>, i: nat, e: KeyCount, before: Counts)
    requires i < |s| && s[i] == e && before == AddAll(a, s, i)
    ensures AddAll(a, s, i + 1) == before[e.key := Get(before, e.key) + e.count]
  {
  }

  /** Entries for other keys leave the count of k alone. */
  lemma {:induction false} AddAllMissing(a: Counts, s: seq<KeyCount>, i: nat, k: seq<byte>)
    requires i <= |s| && forall j :: 0 <= j < i ==> s[j].key != k
    ensures Get(AddAll(a, s, i), k) == Get(a, k)
  {
    if i > 0 {
      AddAllMissing(a, s, i - 1, k);
    }
  }

  /** Before the entry at i is added, the count of its key is the one in a. */
  lemma {:induction false} AddAllBefore(a: Counts, s: seq<KeyCount>, i: nat)
    requires i < |s| && forall p, q :: 0 <= p < q < |s| ==> s[p].key != s[q].key
    ensures Get(AddAll(a, s, i), s[i].key) == Get(a, s[i].key)
  {
    AddAllMissing(a, s, i, s[i].key);
  }

  /** Adding b's entry for one key last. */
  lemma {:induction false} MergeLast(a: Counts, b: Counts, k: seq<byte>)
    requires k in b
    ensures MergeCounts(a, b) ==
      MergeCounts(a, b - {k})[k := Get(MergeCounts(a, b - {k}), k) + b[k]]
  {
    var c := MergeCounts(a, b - {k});
    var r := c[k := Get(c, k) + b[k]];
    forall j ensures Get(MergeCounts(a, b), j) == Get(r, j) {
      assert Get(b - {k}, j) == if j == k then 0 else Get(b, j);
    }
    SameCounts(MergeCounts(a, b), r);
  }

  /** Dropping the last of the first i entries of an enumeration of b
      enumerates b without that entry's key. */
  lemma {:induction false} EntriesDropLast(b: Counts, s: seq<KeyCount>, i: nat)
    requires 0 < i <= |s| && EntriesOf(b, s[..i])
    ensures s[i - 1].key in b && b[s[i - 1].key] == s[i - 1].count
    ensures EntriesOf(b - {s[i - 1].key}, s[..i - 1])
  {
    var e := s[i - 1];
    var w := s[..i];
    var t := s[..i - 1];
    var c := b - {e.key};
    assert w[i - 1] == e && e in w;
    forall x ensures x in t <==> x.key in c && c[x.key] == x.count {
      if x in t {
        var q :| 0 <= q < |t| && t[q] == x;
        assert w[q] == x && x in w;
      }
      if x.key in c && c[x.key] == x.count {
        assert x in w;
        var q :| 0 <= q < |w| && w[q] == x;
        assert q != i - 1;
        assert t[q] == x;
      }
    }
    forall p, q | 0 <= p < q < |t| ensures t[p].key != t[q].key {
      assert t[p] == w[p] && t[q] == w[q];
    }
  }

  /** Every key of b is the key of an entry of an enumeration of b. */
  lemma {:induction false} KeysListed(b: Counts, v: seq<KeyCount>)
    requires EntriesOf(b, v)
    ensures b.Keys <= KeysOf(v)
  {
    forall k | k in b ensures k in KeysOf(v) {
      assert KeyCount(b[k], k) in v;
    }
  }

  /** Adding the entry at i - 1 last, once the others are merged. */
  lemma {:induction false} AddAllLast(a: Counts, b: Counts, s: seq<KeyCount>, i: nat)
    requires 0 < i <= |s| && s[i - 1].key in b && b[s[i - 1].key] == s[i - 1].count
    requires AddAll(a, s, i - 1) == MergeCounts(a, b - {s[i - 1].key})
    ensures AddAll(a, s, i) == MergeCounts(a, b)
  {
    MergeLast(a, b, s[i - 1].key);
  }

  /** Adding every entry of an enumeration of b, in whatever order the map
      yields them, merges b in. */
  lemma {:induction false} AddAllMerges(a: Counts, b: Counts, s: seq<KeyCount>, i: nat)
    requires i <= |s| && EntriesOf(b, s[..i])
    ensures AddAll(a, s, i) == MergeCounts(a, b)
  {
    if i == 0 {
      KeysListed(b, s[..i]);
      assert b == map[];
      MergeCountsLaws(a, b, b);
    } else {
      EntriesDropLast(b, s, i);
      AddAllMerges(a, b - {s[i - 1].key}, s, i - 1);
      AddAllLast(a, b, s, i);
    }
  }

  /** Every entry of a list of entries, listed by a loop over the map, as
      `for (key, &count) in &self.top` and `self.top.values().collect()`
      visit them. */
  method Entries(m: Counts) returns (v: seq<KeyCount>)
    ensures EntriesOf(m, v)
  {
    v := [];
    var rest := m.Keys;
    while rest != {}
      invariant rest <= m.Keys
      invariant forall x :: x in v <==> x.key in m && x.key !in rest && m[x.key] == x.count
      invariant forall i, j :: 0 <= i < j < |v| ==> v[i].key != v[j].key
      decreases |rest|
    {
      var k :| k in rest;
      forall i | 0 <= i < |v| ensures v[i].key != k {
        assert v[i] in v;
      }
      v := v + [KeyCount(m[k], k)];
      rest := rest - {k};
    }
  }

  /** The counter's invariant, on its field values: `top` agrees with
      `counts` on its keys and holds only counts that reached the threshold;
      a key whose count is above the threshold is in `top`; an unbounded
      counter (num == 0) keeps `top` empty and a bounded one keeps it below
      2 * num entries; and once a bounded counter has raised its threshold,
      more than num keys are counted at least that often, since compaction
      left them so and counts only grow. */
  ghost predicate Coherent(counts: Counts, top: Counts, threshold: nat, num: nat)
  {
    (forall k :: k in top ==> k in counts && top[k] == counts[k]) &&
    (forall k :: k in top ==> top[k] >= threshold) &&
    (forall k :: k in counts && counts[k] > threshold ==> k in top) &&
    (num == 0 ==> top == map[]) &&
    (num >= 1 ==> |top| < 2 * num) &&
    (num >= 1 && threshold > 0 ==> |AtLeast(counts, threshold)| > num)
  }

  /** The keys of m counted at least t times. */
  function AtLeast(m: Counts, t: nat): set<seq<byte>>
  {
    set k | k in m && m[k] >= t
  }

  /** Raising one count keeps every key that was counted at least t times. */
  lemma {:induction false} AtLeastGrows(m: Counts, key: seq<byte>, c: nat, t: nat)
    requires Get(m, key) <= c
    ensures |AtLeast(m, t)| <= |AtLeast(m[key := c], t)|
  {
    forall k | k in AtLeast(m, t) ensures k in AtLeast(m[key := c], t) {
      if k == key {
        assert Get(m, key) == m[k];
      }
    }
    SubsetSize(AtLeast(m, t), AtLeast(m[key := c], t));
  }

  /** Compaction of 2 * num entries at their num-th smallest count t leaves
      more than num keys counted at least t times. */
  lemma {:induction false} CompactedAtLeast(counts: Counts, grown: Counts, num: nat, t: nat)
    requires |grown| == 2 * num && NthCount(grown, num, t)
    requires forall k :: k in grown ==> k in counts && counts[k] == grown[k]
    ensures |AtLeast(counts, t)| > num
  {
    var above := AtLeast(grown, t);
    var below := Below(grown, t);
    assert above == grown.Keys - below;
    assert below <= grown.Keys;
    assert |grown.Keys| == |above| + |below|;
    SubsetSize(above, AtLeast(counts, t));
  }

  /** What `add` does to `top` and `threshold` once the key's new count c is
      known: a count below the threshold leaves both alone; otherwise c is
      written to `top`, and if that makes `top` reach 2 * num entries the
      threshold rises to the num-th smallest count in it, only the entries
      strictly above it stay, and at most num do. */
  ghost predicate Promoted(top: Counts, threshold: nat, num: nat, key: seq<byte>, c: nat,
                           top': Counts, threshold': nat)
  {
    var grown := top[key := c];
    if c < threshold then top' == top && threshold' == threshold
    else if key in top || |grown| < 2 * num then top' == grown && threshold' == threshold
    else NthCount(grown, num, threshold') && top' == Retain(grown, threshold') && |top'| <= num
  }

  /** A count that stays below the threshold leaves `top` and `threshold`
      alone and keeps the counter coherent. */
  lemma {:induction false} AddBelow(counts: Counts, top: Counts, threshold: nat, num: nat, key: seq<byte>, c: nat)
    requires Coherent(counts, top, threshold, num)
    requires Get(counts, key) <= c < threshold
    ensures Coherent(counts[key := c], top, threshold, num)
    ensures Promoted(top, threshold, num, key, c, top, threshold)
  {
    assert key !in top;
    AtLeastGrows(counts, key, c, threshold);
  }

  /** A count written to `top` without compaction keeps the counter
      coherent. */
  lemma {:induction false} AddKept(counts: Counts, top: Counts, threshold: nat, num: nat, key: seq<byte>, c: nat)
    requires Coherent(counts, top, threshold, num)
    requires Get(counts, key) <= c && threshold <= c && num >= 1
    requires key in top || |top[key := c]| < 2 * num
    ensures Coherent(counts[key := c], top[key := c], threshold, num)
    ensures Promoted(top, threshold, num, key, c, top[key := c], threshold)
  {
    if key in top {
      assert top[key := c].Keys == top.Keys;
    }
    AtLeastGrows(counts, key, c, threshold);
  }

  /** Whatever `add` does to `top` and the threshold, as `Promoted` says,
      keeps the counter coherent, never lowers the threshold, and compacts
      nothing while fewer than 2 * num keys are counted. */
  lemma {:induction false} PromotedKeeps(counts: Counts, top: Counts, threshold: nat, num: nat, key: seq<byte>, c: nat,
                                         top': Counts, threshold': nat)
    requires Coherent(counts, top, threshold, num)
    requires Get(counts, key) <= c && (num >= 1 || c < threshold)
    requires Promoted(top, threshold, num, key, c, top', threshold')
    ensures Coherent(counts[key := c], top', threshold', num)
    ensures threshold <= threshold' && (num == 0 ==> threshold' == threshold)
    ensures (|counts| < 2 * num ==> threshold == 0 && top == counts) ==>
            (|counts[key := c]| < 2 * num ==> threshold' == 0 && top' == counts[key := c])
  {
    var grown := top[key := c];
    if c < threshold {
      AddBelow(counts, top, threshold, num, key, c);
    } else if key in top || |grown| < 2 * num {
      AddKept(counts, top, threshold, num, key, c);
    } else {
      AddCompacted(counts, top, threshold, num, key, c, grown, threshold');
    }
  }

  /** A sorted enumeration of m is ascending and lists each entry once. */
  lemma {:induction false} SortedEntries(m: Counts, v: seq<KeyCount>, sorted: seq<KeyCount>)
    requires EntriesOf(m, v) && sorted == Sort(v)
    ensures SortedAsc(sorted) && EntriesOf(m, sorted) && |sorted| == |m|
  {
    EntriesSorted(m, v);
    AscendingEntries(m);
  }

  /** The new threshold when `top` has grown to 2 * num entries: the num-th
      smallest count in it, read from its sorted values. */
  method CompactionThreshold(top: Counts, num: nat) returns (t: nat)
    requires 1 <= num <= |top|
    ensures NthCount(top, num, t)
  {
    var values := Entries(top);
    var sorted := Sort(values);
    SortedEntries(top, values, sorted);
    t := sorted[num - 1].count;
    SortedNth(top, sorted, num);
  }

  /** Compaction keeps the counter coherent and raises the threshold. */
  lemma {:induction false} AddCompacted(counts: Counts, top: Counts, threshold: nat, num: nat, key: seq<byte>, c: nat,
                                        grown: Counts, t: nat)
    requires Coherent(counts, top, threshold, num)
    requires Get(counts, key) <= c && threshold <= c && num >= 1
    requires key !in top && grown == top[key := c] && |grown| >= 2 * num
    requires NthCount(grown, num, t)
    ensures Coherent(counts[key := c], Retain(grown, t), t, num)
    ensures threshold <= t
    ensures Promoted(top, threshold, num, key, c, Retain(grown, t), t)
  {
    assert |grown| == |top| + 1;
    CompactKeepsAtMost(grown, num, t);
    var k0 :| k0 in grown && grown[k0] == t;
    assert threshold <= t;
    CompactedAtLeast(counts[key := c], grown, num, t);
  }

  /** Ties at the threshold can leave `top` short. With num = 1, a second
      key counted once brings `top` to two entries; the threshold becomes
      1, and compaction keeps neither entry. `top()` then reports nothing,
      although two keys have been counted. */
  lemma TiedCompactionEmpties()
    ensures var a, c: seq<byte> := [97], [98];
      var grown := map[a := 1, c := 1];
      |grown| == 2 && NthCount(grown, 1, 1) && Retain(grown, 1) == map[] &&
      Promoted(map[a := 1], 0, 1, c, 1, map[], 1)
  {
    var a, c: seq<byte> := [97], [98];
    var grown := map[a := 1, c := 1];
    assert a != c && a in grown && grown[a] == 1;
    assert Below(grown, 1) == {};
    assert AtMost(grown, 1) == {a, c};
    assert Retain(grown, 1) == map[];
  }

  /** What `top()` of a coherent bounded counter promises about the exact
      counts: every reported count is exact, and a key left out counts no
      more than any key reported (it is either below that key in `top`, or
      out of `top` and so at or under the threshold every entry of `top`
      reaches). */
  lemma {:induction false} TopReportsExact(counts: Counts, top: Counts, threshold: nat, num: nat, r: seq<KeyCount>)
    requires Coherent(counts, top, threshold, num)
    requires forall x :: x in r ==> x.key in top && top[x.key] == x.count
    requires forall k :: k in top && KeyCount(top[k], k) !in r ==> forall x :: x in r ==> Less(KeyCount(top[k], k), x)
    ensures forall x :: x in r ==> x.key in counts && counts[x.key] == x.count
    ensures forall k, x :: k in counts && KeyCount(counts[k], k) !in r && x in r ==> counts[k] <= x.count
  {
    forall k, x | k in counts && KeyCount(counts[k], k) !in r && x in r
      ensures counts[k] <= x.count
    {
      if k in top {
        assert Less(KeyCount(top[k], k), x);
      } else {
        assert counts[k] <= threshold <= top[x.key];
      }
    }
  }

  /** A finite set inside another of the same size is that set. */
  lemma {:induction false} SubsetSameSize<T>(a: set<T>, b: set<T>)
    requires a <= b && |a| == |b|
    ensures a == b
  {
    if x :| x in b && x !in a {
      SubsetSize(a, b - {x});
    }
  }

  /** `top()` leaves no entry of `top` out unless it reports num of them. */
  lemma {:induction false} TopReportsAll(top: Counts, num: nat, r: seq<KeyCount>)
    requires forall x :: x in r ==> x.key in top && top[x.key] == x.count
    requires forall i, j :: 0 <= i < j < |r| ==> r[i].key != r[j].key
    requires |r| == (if num > 0 && |top| > num then num else |top|)
    ensures |r| == num || forall k :: k in top ==> KeyCount(top[k], k) in r
  {
    if |r| != num {
      KeysOfDistinct(r);
      assert KeysOf(r) <= top.Keys;
      SubsetSameSize(KeysOf(r), top.Keys);
      forall k | k in top ensures KeyCount(top[k], k) in r {
        assert k in KeysOf(r);
        var x :| x in r && x.key == k;
      }
    }
  }

  /** What `top()` of a coherent bounded counter reports at the least:
      either num entries, or every key whose count is above the threshold
      (all of `top` fits in the answer, and `top` holds every such key). */
  lemma {:induction false} TopReportsAbove(counts: Counts, top: Counts, threshold: nat, num: nat, r: seq<KeyCount>)
    requires Coherent(counts, top, threshold, num)
    requires forall x :: x in r ==> x.key in top && top[x.key] == x.count
    requires forall i, j :: 0 <= i < j < |r| ==> r[i].key != r[j].key
    requires |r| == (if num > 0 && |top| > num then num else |top|)
    ensures |r| == num || forall k :: k in counts && counts[k] > threshold ==> KeyCount(counts[k], k) in r
  {
    TopReportsAll(top, num, r);
  }

  /** The keys of m other than k counted at least as often as k. */
  function Rivals(m: Counts, k: seq<byte>): set<seq<byte>>
    requires k in m
  {
    set j | j in m && j != k && m[j] >= m[k]
  }

  /** What `top()` of a coherent bounded counter leaves out: a key counted
      at least once that is not reported has at least num other keys
      counted at least as often. Either it is in `top`, which then holds
      more than num entries, all num reported ones outranking it; or it is
      out of `top`, so at or under a positive threshold that more than num
      keys reach. */
  lemma {:induction false} TopLeavesOutOutranked(counts: Counts, top: Counts, threshold: nat, num: nat, r: seq<KeyCount>)
    requires Coherent(counts, top, threshold, num) && num >= 1
    requires forall k :: k in counts ==> counts[k] >= 1
    requires forall x :: x in r ==> x.key in top && top[x.key] == x.count
    requires forall i, j :: 0 <= i < j < |r| ==> r[i].key != r[j].key
    requires |r| == (if |top| > num then num else |top|)
    requires forall k :: k in top && KeyCount(top[k], k) !in r ==> forall x :: x in r ==> Less(KeyCount(top[k], k), x)
    ensures forall k :: k in counts && KeyCount(counts[k], k) !in r ==> |Rivals(counts, k)| >= num
  {
    TopReportsAll(top, num, r);
    KeysOfDistinct(r);
    forall k | k in counts && KeyCount(counts[k], k) !in r
      ensures |Rivals(counts, k)| >= num
    {
      if k in top {
        assert |r| == num;
        forall j | j in KeysOf(r) ensures j in Rivals(counts, k) {
          var x :| x in r && x.key == j;
          assert Less(KeyCount(top[k], k), x);
        }
        SubsetSize(KeysOf(r), Rivals(counts, k));
      } else {
        var above := AtLeast(counts, threshold);
        assert above - {k} <= Rivals(counts, k);
        SubsetSize(above - {k}, Rivals(counts, k));
      }
    }
  }

  /** Two of three entries with distinct counts, in descending order,
      where the one left out is below both, are the two largest. */
  lemma {:induction false} TwoLargest(r: seq<KeyCount>, e1: KeyCount, e2: KeyCount, e3: KeyCount)
    requires e1.count > e2.count > e3.count
    requires |r| == 2 && r[0] != r[1] && LessEq(r[1], r[0])
    requires forall x :: x in r ==> x == e1 || x == e2 || x == e3
    requires e1 !in r ==> Less(e1, r[0])
    requires e2 !in r ==> Less(e2, r[0]) && Less(e2, r[1])
    ensures r == [e1, e2]
  {
    assert r[0] in r && r[1] in r;
  }

  /** Two entries of three distinct keys counted 4, 3 and 1 times, where
      the key left out is below both, are those counted 4 and 3. */
  lemma {:induction false} TopOfThree(m: Counts, a: seq<byte>, b: seq<byte>, c: seq<byte>, r: seq<KeyCount>)
    requires a != b && a != c && b != c && m == map[a := 4, b := 3, c := 1]
    requires SortedDesc(r) && |r| == (if |m| > 2 then 2 else |m|)
    requires forall x :: x in r ==> x.key in m && m[x.key] == x.count
    requires forall i, j :: 0 <= i < j < |r| ==> r[i].key != r[j].key
    requires forall k :: k in m && KeyCount(m[k], k) !in r ==> forall x :: x in r ==> Less(KeyCount(m[k], k), x)
    ensures r == [KeyCount(4, a), KeyCount(3, b)]
  {
    assert m.Keys == {a, b, c};
    assert |m| == 3;
    assert r[0] in r && r[1] in r;
    assert a in m && b in m;
    TwoLargest(r, KeyCount(4, a), KeyCount(3, b), KeyCount(1, c));
  }

  /** With num = 2, three distinct keys counted 4, 3 and 1 times are
      reported as (4, a), (3, b). */
  lemma {:induction false} TopOfExample(m: Counts, a: seq<byte>, b: seq<byte>, c: seq<byte>)
    requires a != b && a != c && b != c && m == map[a := 4, b := 3, c := 1]
    ensures TopOf(m, 2) == [KeyCount(4, a), KeyCount(3, b)]
  {
    TopOfSpec(m, 2);
    TopOfThree(m, a, b, c, TopOf(m, 2));
  }

  class Counter {
    var counts: Counts
    var top: Counts
    var threshold: nat
    const num: nat

    ghost predicate Valid()
      reads this
    {
      Coherent(counts, top, threshold, num)
    }

    /** While fewer than 2 * num keys have been counted nothing has been
        compacted away: the threshold is still 0 and `top` holds every
        exact count. */
    ghost predicate Whole()
      reads this
    {
      |counts| < 2 * num ==> threshold == 0 && top == counts
    }

    /** `Counter::new`: `None` is the unbounded counter, whose threshold
        u64::MAX keeps every key out of `top`. */
    constructor (num: Option<nat>)
      ensures Valid() && Whole() && counts == map[] && top == map[]
      ensures this.num == (if num.Some? then num.value else 0)
      ensures threshold == (if num.Some? then 0 else U64_MAX)
    {
      this.num := if num.Some? then num.value else 0;
      threshold := if num.Some? then 0 else U64_MAX;
      counts := map[];
      top := map[];
    }

    /** `add`: the exact count of `key` grows by `added` and no other count
        changes; `top` and `threshold` change as `Promoted` says. */
    method Add(key: seq<byte>, added: nat)
      requires Valid()
      requires Get(counts, key) + added <= U64_MAX
      requires num >= 1 || Get(counts, key) + added < threshold
      modifies this
      ensures Valid() && threshold >= old(threshold)
      ensures counts == old(counts)[key := Get(old(counts), key) + added]
      ensures Promoted(old(top), old(threshold), num, key, Get(old(counts), key) + added, top, threshold)
      ensures num == 0 ==> threshold == old(threshold)
      ensures old(Whole()) ==> Whole()
    {
      var count := Get(counts, key) + added;
      var counts' := counts[key := count];
      var top', threshold' := top, threshold;
      if count >= threshold {
        top' := top[key := count];
        if key !in top && |top'| >= num * 2 {
          threshold' := CompactionThreshold(top', num);
          CompactKeepsAtMost(top', num, threshold');
          top' := Retain(top', threshold');
        }
      }
      PromotedKeeps(counts, top, threshold, num, key, count, top', threshold');
      counts, top, threshold := counts', top', threshold';
    }

    /** `top`: the entries of `top`, largest first, at most `num` of them
        when `num` is positive. */
    method Top() returns (r: seq<KeyCount>)
      ensures r == TopOf(top, num)
      ensures SortedDesc(r) && |r| == (if num > 0 && |top| > num then num else |top|)
      ensures forall x :: x in r ==> x.key in top && top[x.key] == x.count
      ensures forall i, j :: 0 <= i < j < |r| ==> r[i].key != r[j].key
      ensures forall k :: k in top && KeyCount(top[k], k) !in r ==> forall x :: x in r ==> Less(KeyCount(top[k], k), x)
    {
      var v := Entries(top);
      EntriesSorted(top, v);
      var sorted := Sort(v);
      r := Reverse(sorted);
      if num > 0 {
        r := Truncate(r, num);
      }
      TopOfSpec(top, num);
    }

    /** `add` as the loop of `merge` sees it: the counter stays coherent
        and the exact counts become `next`, however `top` moved. */
    method AddSum(e: KeyCount, ghost next: Counts)
      requires Valid() && next == counts[e.key := Get(counts, e.key) + e.count]
      requires Get(counts, e.key) + e.count <= U64_MAX
      requires num >= 1 || Get(counts, e.key) + e.count < threshold
      modifies this
      ensures Valid() && threshold >= old(threshold) && (num == 0 ==> threshold == old(threshold))
      ensures counts == next
      ensures old(Whole()) ==> Whole()
    {
      Add(e.key, e.count);
    }

    /** One pass of the loop of `merge`: `add` of the entry at i. */
    method AddEntry(e: KeyCount, ghost counts0: Counts, ghost entries: seq<KeyCount>, ghost i: nat)
      requires Valid() && i < |entries| && e == entries[i]
      requires counts == AddAll(counts0, entries, i)
      requires Get(counts, e.key) + e.count <= U64_MAX
      requires num >= 1 || Get(counts, e.key) + e.count < threshold
      modifies this
      ensures Valid() && threshold >= old(threshold) && (num == 0 ==> threshold == old(threshold))
      ensures counts == AddAll(counts0, entries, i + 1)
      ensures old(Whole()) ==> Whole()
    {
      AddAllNext(counts0, entries, i, e, counts);
      AddSum(e, AddAll(counts0, entries, i + 1));
    }

    /** `merge`: every entry of `r` is added to this counter, so that the
        exact counts become the key-wise sums, whatever order the map
        yields its entries in. What `top` becomes is left unstated on
        purpose: it depends on that order. */
    method Merge(r: Counter)
      requires Valid() && r != this
      requires forall k :: k in r.counts ==> Get(counts, k) + r.counts[k] <= U64_MAX
      requires num >= 1 || forall k :: k in r.counts ==> Get(counts, k) + r.counts[k] < threshold
      modifies this
      ensures Valid() && threshold >= old(threshold)
      ensures counts == MergeCounts(old(counts), r.counts)
      ensures old(Whole()) ==> Whole()
    {
      ghost var counts0, threshold0, whole0 := counts, threshold, Whole();
      var entries := Entries(r.counts);
      var i := 0;
      while i < |entries|
        invariant i <= |entries| && Valid()
        invariant counts == AddAll(counts0, entries, i)
        invariant threshold0 <= threshold && (num == 0 ==> threshold == threshold0)
        invariant whole0 ==> Whole()
      {
        var e := entries[i];
        assert e in entries;
        AddAllBefore(counts0, entries, i);
        AddEntry(e, counts0, entries, i);
        i := i + 1;
      }
      assert entries[..i] == entries;
      AddAllMerges(counts0, r.counts, entries, i);
    }
  }
}
