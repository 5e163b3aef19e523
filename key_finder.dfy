/** The `KeyFinder` of src/key_finder.rs: which whitespace-separated fields of
    a record make up its key, and how they are cut out and joined. Requested
    field numbers are 1-based; the finder keeps them as a table of skip
    counts for successive `nth` calls on a bounded split of the record. */
module KeyFinding {
  import opened Bytes

  /** 2^64, the modulus of `usize::wrapping_sub`. */
  const WRAP: nat := USIZE_MAX + 1

  /** `a.wrapping_sub(b)` on `usize`. */
  function WrappingSub(a: nat, b: nat): (r: nat)
    requires a <= USIZE_MAX && b <= USIZE_MAX
    ensures r <= USIZE_MAX && (r + b) % WRAP == a
  {
    (a - b) % WRAP
  }

  /** The table built by `KeyFinder::new`: `None` when the whole record is
      the key, else the skip counts and the last selected 0-based field. */
  datatype KeyFinder = KeyFinder(keys: Option<(seq<nat>, nat)>)

  /** What `key` returns: the key, or the "not enough fields" error. */
  datatype Outcome = Ok(key: seq<byte>) | Err

  /** The largest requested field number, `*keys.last().unwrap()` after the
      sort. */
  function Max(ks: seq<nat>): (m: nat)
    requires ks != []
    ensures m in ks && forall k :: k in ks ==> k <= m
  {
    if |ks| == 1 then ks[0]
    else
      var m := Max(ks[1..]);
      assert forall k :: k in ks ==> k == ks[0] || k in ks[1..];
      if ks[0] > m then ks[0] else m
  }

  /** The `keep` mask: keep[i] says whether field i (0-based) is requested. */
  function Keep(ks: seq<nat>): (keep: seq<bool>)
    requires ks != []
    ensures |keep| == Max(ks) + 1
  {
    seq(Max(ks) + 1, i requires 0 <= i <= Max(ks) => i + 1 in ks)
  }

  /** The indices below n whose mask entry is set, in ascending order. */
  function Indices(keep: seq<bool>, n: nat): (r: seq<nat>)
    requires n <= |keep|
  {
    if n == 0 then []
    else Indices(keep, n - 1) + (if keep[n - 1] then [n - 1] else [])
  }

  predicate Increasing(s: seq<nat>)
  {
    forall i, j :: 0 <= i < j < |s| ==> s[i] < s[j]
  }

  /** `Indices` lists exactly the set indices below n, ascending. */
  lemma {:induction false} IndicesSpec(keep: seq<bool>, n: nat)
    requires n <= |keep|
    ensures Increasing(Indices(keep, n))
    ensures forall x: nat :: x in Indices(keep, n) <==> x < n && keep[x]
  {
    if n > 0 {
      IndicesSpec(keep, n - 1);
      if keep[n - 1] {
        IncreasingSnoc(Indices(keep, n - 1), n - 1);
      }
    }
  }

  lemma {:induction false} IncreasingSnoc(s: seq<nat>, x: nat)
    requires Increasing(s) && forall y :: y in s ==> y < x
    ensures Increasing(s + [x])
  {
    forall i, j | 0 <= i < j < |s + [x]| ensures (s + [x])[i] < (s + [x])[j] {
      if j == |s| {
        assert s[i] in s;
      }
    }
  }

  /** The 0-based fields a request selects. */
  function Selected(ks: seq<nat>): seq<nat>
    requires ks != []
  {
    Indices(Keep(ks), Max(ks) + 1)
  }

  /** The selection is the distinct requested numbers that are at least 1,
      each lowered by one, in ascending order: the request's order and its
      duplicates do not matter, and field number 0 selects nothing. */
  lemma {:induction false} SelectedSpec(ks: seq<nat>)
    requires ks != []
    ensures Increasing(Selected(ks))
    ensures forall x: nat :: x in Selected(ks) <==> x + 1 in ks
  {
    IndicesSpec(Keep(ks), Max(ks) + 1);
  }

  /** The last element, or `dflt` for the empty sequence. */
  function LastOr(s: seq<nat>, dflt: nat): nat
  {
    if s == [] then dflt else s[|s| - 1]
  }

  function Sum(s: seq<nat>): nat
  {
    if s == [] then 0 else Sum(s[..|s| - 1]) + s[|s| - 1]
  }

  /** The field each `nth` call lands on: the j-th call skips offs[j] fields
      after the one the previous call returned. */
  function Positions(offs: seq<nat>): (pos: seq<nat>)
    ensures |pos| == |offs|
  {
    seq(|offs|, j requires 0 <= j < |offs| => j + Sum(offs[..j + 1]))
  }

  /** The skip count table for an ascending selection: the first field
      itself, then each gap minus one. */
  function Gaps(sel: seq<nat>): (offs: seq<nat>)
    requires Increasing(sel)
    ensures |offs| == |sel|
  {
    seq(|sel|, j requires 0 <= j < |sel| => if j == 0 then sel[0] else sel[j] - sel[j - 1] - 1)
  }

  /** Sum over one more element. */
  lemma {:induction false} SumSnoc(offs: seq<nat>, j: nat)
    requires j < |offs|
    ensures Sum(offs[..j + 1]) == Sum(offs[..j]) + offs[j]
  {
    assert offs[..j + 1][..j] == offs[..j];
  }

  /** Each position is one past the previous one plus its skip count. */
  lemma {:induction false} PositionsStep(offs: seq<nat>, j: nat)
    requires j < |offs|
    ensures Positions(offs)[j] == (if j == 0 then 0 else Positions(offs)[j - 1] + 1) + offs[j]
  {
    SumSnoc(offs, j);
    if j == 0 {
      assert offs[..0] == [];
    }
  }

  /** Following the skip counts of an ascending selection visits exactly
      the selected fields. */
  lemma {:induction false} PositionsOfGaps(sel: seq<nat>)
    requires Increasing(sel)
    ensures Positions(Gaps(sel)) == sel
  {
    var offs := Gaps(sel);
    var pos := Positions(offs);
    forall j | 0 <= j < |sel| ensures pos[j] == sel[j] {
      PositionsOfGapsAt(sel, offs, j);
    }
  }

  lemma {:induction false} PositionsOfGapsAt(sel: seq<nat>, offs: seq<nat>, j: nat)
    requires Increasing(sel) && offs == Gaps(sel) && j < |sel|
    ensures Positions(offs)[j] == sel[j]
  {
    PositionsStep(offs, j);
    if j > 0 {
      PositionsOfGapsAt(sel, offs, j - 1);
    }
  }

  /** Conversely every table of skip counts visits strictly ascending
      fields, and is the table of the fields it visits. */
  lemma {:induction false} GapsOfPositions(offs: seq<nat>)
    ensures Increasing(Positions(offs))
    ensures Gaps(Positions(offs)) == offs
  {
    var pos := Positions(offs);
    forall j | 0 < j < |offs| ensures pos[j - 1] < pos[j] {
      PositionsStep(offs, j);
    }
    forall i, j | 0 <= i < j < |pos| ensures pos[i] < pos[j] {
      Ascending(pos, i, j);
    }
    forall j | 0 <= j < |offs| ensures Gaps(pos)[j] == offs[j] {
      PositionsStep(offs, j);
    }
  }

  lemma {:induction false} Ascending(pos: seq<nat>, i: nat, j: nat)
    requires forall k :: 0 < k < |pos| ==> pos[k - 1] < pos[k]
    requires i < j < |pos|
    ensures pos[i] < pos[j]
    decreases j - i
  {
    if i + 1 < j {
      Ascending(pos, i + 1, j);
    }
  }

  /** `KeyFinder::new`. Sorting the request only serves to find its largest
      number (`keys.last()`); the mask is built by membership, so the sort
      is not otherwise visible. The loop pushes, for each kept field, its
      distance from the previously kept one, starting from `usize::MAX` so
      that the first distance wraps round to the field itself. */
  method New(keys: Option<seq<nat>>) returns (kf: KeyFinder)
    requires keys.Some? ==> keys.value != []
    requires keys.Some? ==> forall k :: k in keys.value ==> k < USIZE_MAX
    ensures keys.None? <==> kf.keys.None?
    ensures keys.Some? ==>
      var sel := Selected(keys.value);
      Increasing(sel) &&
      kf.keys == Some((Gaps(sel), LastOr(sel, USIZE_MAX)))
  {
    if keys.None? {
      return KeyFinder(None);
    }
    var ks := keys.value;
    var keep := Keep(ks);
    assert |keep| <= USIZE_MAX by {
      assert Max(ks) in ks;
    }
    var offsets: seq<nat> := [];
    var last: nat := USIZE_MAX;
    for idx := 0 to |keep|
      invariant TableUpTo(keep, idx, offsets, last)
    {
      ghost var offsets0, last0 := offsets, last;
      if keep[idx] {
        offsets := offsets + [WrappingSub(WrappingSub(idx, last), 1)];
        last := idx;
      }
      TableStep(keep, idx, offsets0, last0, offsets, last);
    }
    kf := KeyFinder(Some((offsets, last)));
  }

  /** After the first idx mask entries, the loop of `new` holds the table of
      the fields kept so far, all of them below idx. */
  ghost predicate TableUpTo(keep: seq<bool>, idx: nat, offsets: seq<nat>, last: nat)
    requires idx <= |keep|
  {
    Increasing(Indices(keep, idx)) &&
    offsets == Gaps(Indices(keep, idx)) &&
    last == LastOr(Indices(keep, idx), USIZE_MAX) &&
    (forall x :: x in Indices(keep, idx) ==> x < idx) &&
    last <= USIZE_MAX
  }

  /** One pass of that loop: a kept field pushes its distance from the
      previous one and becomes the last. */
  lemma {:induction false} TableStep(keep: seq<bool>, idx: nat, offsets: seq<nat>, last: nat,
                                     offsets': seq<nat>, last': nat)
    requires idx < |keep| <= USIZE_MAX && TableUpTo(keep, idx, offsets, last)
    requires keep[idx] ==> offsets' == offsets + [WrappingSub(WrappingSub(idx, last), 1)] && last' == idx
    requires !keep[idx] ==> offsets' == offsets && last' == last
    ensures TableUpTo(keep, idx + 1, offsets', last')
  {
    var sel, sel' := Indices(keep, idx), Indices(keep, idx + 1);
    IndicesStep(keep, idx, sel, sel');
    if keep[idx] {
      KeptGap(sel, idx, last, WrappingSub(WrappingSub(idx, last), 1));
    }
  }

  /** One more mask entry extends the ascending indices by at most the new
      index. */
  lemma {:induction false} IndicesStep(keep: seq<bool>, idx: nat, sel: seq<nat>, sel': seq<nat>)
    requires idx < |keep| && sel == Indices(keep, idx) && sel' == Indices(keep, idx + 1)
    requires Increasing(sel) && forall x :: x in sel ==> x < idx
    ensures sel' == if keep[idx] then sel + [idx] else sel
    ensures Increasing(sel') && forall x :: x in sel' ==> x < idx + 1
  {
    if keep[idx] {
      IncreasingSnoc(sel, idx);
    }
  }

  /** The pushed distance extends the table by the new field's gap. */
  lemma {:induction false} KeptGap(sel: seq<nat>, idx: nat, last: nat, gap: nat)
    requires Increasing(sel) && Increasing(sel + [idx])
    requires idx < USIZE_MAX && last == LastOr(sel, USIZE_MAX)
    requires last <= USIZE_MAX && gap == WrappingSub(WrappingSub(idx, last), 1)
    ensures Gaps(sel + [idx]) == Gaps(sel) + [gap]
  {
    var t := WrappingSub(idx, last);
    if sel == [] {
      assert t == idx + 1;
      assert gap == idx;
    } else {
      assert (sel + [idx])[|sel| - 1] == last && (sel + [idx])[|sel|] == idx;
      assert last < idx;
      assert t == idx - last;
      assert gap == idx - last - 1;
    }
  }

  /** ' ' and '\t', the two field separators. */
  predicate IsSep(c: byte)
  {
    c == SP || c == TAB
  }

  /** The index of the first separator at or after `at`, or |r|. */
  function NextSep(r: seq<byte>, at: nat): (e: nat)
    requires at <= |r|
    ensures at <= e <= |r|
    ensures e < |r| ==> IsSep(r[e])
    decreases |r| - at
  {
    if at == |r| || IsSep(r[at]) then at else NextSep(r, at + 1)
  }

  lemma {:induction false} NoSepBefore(r: seq<byte>, at: nat)
    requires at <= |r|
    ensures forall j :: at <= j < NextSep(r, at) ==> !IsSep(r[j])
    decreases |r| - at
  {
    if at < |r| && !IsSep(r[at]) {
      NoSepBefore(r, at + 1);
    }
  }

  /** The first separator at or after `at` is the one at `e` (or there is
      none, when e == |r|) if no byte in between is a separator. */
  lemma {:induction false} NextSepIs(r: seq<byte>, at: nat, e: nat)
    requires at <= e <= |r|
    requires e < |r| ==> IsSep(r[e])
    requires forall j :: at <= j < e ==> !IsSep(r[j])
    ensures NextSep(r, at) == e
    decreases e - at
  {
    if at < e {
      NextSepIs(r, at + 1, e);
    }
  }

  /** `str::split` on every single separator, of r[at..]. */
  function SplitFrom(r: seq<byte>, at: nat): (ps: seq<seq<byte>>)
    requires at <= |r|
    ensures |ps| >= 1
    decreases |r| - at
  {
    var e := NextSep(r, at);
    if e == |r| then [r[at..]] else [r[at..e]] + SplitFrom(r, e + 1)
  }

  /** The fields of a record. */
  function Split(r: seq<byte>): seq<seq<byte>>
  {
    SplitFrom(r, 0)
  }

  /** `str::splitn(n, ..)` of r[at..]: at most n pieces, the last one holding
      the unsplit remainder. */
  function SplitNFrom(r: seq<byte>, at: nat, n: nat): (ps: seq<seq<byte>>)
    requires at <= |r| && n >= 1
    ensures 1 <= |ps| <= n
    decreases n
  {
    if n == 1 then [r[at..]]
    else
      var e := NextSep(r, at);
      if e == |r| then [r[at..]] else [r[at..e]] + SplitNFrom(r, e + 1, n - 1)
  }

  function SplitN(r: seq<byte>, n: nat): seq<seq<byte>>
    requires n >= 1
  {
    SplitNFrom(r, 0, n)
  }

  /** Bounding the split to n pieces leaves its first n - 1 pieces as they
      are: the bounded split reaches piece j exactly when the full split
      does, and then both hold the same field. */
  lemma {:induction false} SplitNAgrees(r: seq<byte>, at: nat, n: nat, j: nat)
    requires at <= |r| && j + 1 < n
    ensures j < |SplitNFrom(r, at, n)| <==> j < |SplitFrom(r, at)|
    ensures j < |SplitFrom(r, at)| ==> SplitNFrom(r, at, n)[j] == SplitFrom(r, at)[j]
    decreases n
  {
    var e := NextSep(r, at);
    if e < |r| && j > 0 {
      SplitNAgrees(r, e + 1, n - 1, j - 1);
    }
  }

  /** `[p0, p1, ..]` joined with single spaces. */
  function Join(ps: seq<seq<byte>>): seq<byte>
  {
    if ps == [] then []
    else if |ps| == 1 then ps[0]
    else ps[0] + [SP] + Join(ps[1..])
  }

  /** Joining one more piece appends a space and the piece. */
  lemma {:induction false} JoinSnoc(ps: seq<seq<byte>>, x: seq<byte>)
    ensures Join(ps + [x]) == if ps == [] then x else Join(ps) + [SP] + x
    decreases |ps|
  {
    if |ps| >= 2 {
      assert (ps + [x])[1..] == ps[1..] + [x];
      JoinSnoc(ps[1..], x);
    } else if |ps| == 1 {
      assert (ps + [x])[1..] == [x];
    }
  }

  /** Every tab turned into a space. */
  function Spaced(r: seq<byte>): (t: seq<byte>)
    ensures |t| == |r|
  {
    seq(|r|, i requires 0 <= i < |r| => if r[i] == TAB then SP else r[i])
  }

  /** No field holds a separator. */
  lemma {:induction false} FieldsHaveNoSep(r: seq<byte>, at: nat)
    requires at <= |r|
    ensures forall f :: f in SplitFrom(r, at) ==> forall c :: c in f ==> !IsSep(c)
    decreases |r| - at
  {
    var e := NextSep(r, at);
    NoSepBefore(r, at);
    if e < |r| {
      FieldsHaveNoSep(r, e + 1);
    }
  }

  /** Joined with single spaces, the fields give back the record with its
      tabs as spaces: every separator ends a field, so two adjacent
      separators enclose an empty one. */
  lemma {:induction false} SplitJoin(r: seq<byte>, at: nat)
    requires at <= |r|
    ensures Join(SplitFrom(r, at)) == Spaced(r)[at..]
    decreases |r| - at
  {
    var e := NextSep(r, at);
    if e < |r| {
      SplitJoin(r, e + 1);
      SplitJoinStep(r, at, e);
    } else {
      SpacedUpTo(r, at);
      assert SplitFrom(r, at) == [r[at..]];
    }
  }

  /** The step of SplitJoin: a field and its separator in front of the
      fields after it. */
  lemma {:induction false} SplitJoinStep(r: seq<byte>, at: nat, e: nat)
    requires at <= |r| && e == NextSep(r, at) && e < |r|
    requires Join(SplitFrom(r, e + 1)) == Spaced(r)[e + 1..]
    ensures Join(SplitFrom(r, at)) == Spaced(r)[at..]
  {
    var head, rest := r[at..e], SplitFrom(r, e + 1);
    assert SplitFrom(r, at) == [head] + rest;
    JoinCons(head, rest);
    SpacedUpTo(r, at);
  }

  /** A field holds no separator. */
  predicate SepFree(f: seq<byte>)
  {
    forall c :: c in f ==> !IsSep(c)
  }

  /** Conversely, fields that hold no separator, joined with single
      spaces, split back into those fields. */
  lemma {:induction false} JoinSplit(ps: seq<seq<byte>>)
    requires ps != [] && forall j :: 0 <= j < |ps| ==> SepFree(ps[j])
    ensures Split(Join(ps)) == ps
    decreases |ps|
  {
    var r, p, rest := Join(ps), ps[0], ps[1..];
    assert SepFree(p);
    if rest == [] {
      assert r == p && r[0..] == r;
      NoSepField(r, 0, p);
      assert ps == [p];
    } else {
      assert ps == [p] + rest;
      JoinCons(p, rest);
      assert r[0..] == r;
      var e := |p|;
      SepAfterField(r, 0, p, rest, e);
      var tail := SplitFrom(r, e + 1);
      SplitFromStep(r, 0, e, p, tail);
      SplitFromShift(r, e + 1, 0);
      assert forall j :: 0 <= j < |rest| ==> SepFree(rest[j]) by {
        forall j | 0 <= j < |rest| ensures SepFree(rest[j]) {
          assert rest[j] == ps[j + 1];
        }
      }
      JoinSplit(rest);
    }
  }

  /** A record that is one field free of separators splits into that
      field. */
  lemma {:induction false} NoSepField(r: seq<byte>, at: nat, p: seq<byte>)
    requires at <= |r| && r[at..] == p && SepFree(p)
    ensures SplitFrom(r, at) == [p]
  {
    forall j | at <= j < |r| ensures !IsSep(r[j]) {
      assert r[j] == p[j - at] && r[j] in p;
    }
    NextSepIs(r, at, |r|);
  }

  /** A field free of separators, a space and more: the next separator is
      that space. */
  lemma {:induction false} SepAfterField(r: seq<byte>, at: nat, p: seq<byte>, rest: seq<seq<byte>>, e: nat)
    requires at <= |r| && r[at..] == p + [SP] + Join(rest) && e == at + |p|
    requires SepFree(p)
    ensures e < |r| && r[e + 1..] == Join(rest)
    ensures NextSep(r, at) == e && r[at..e] == p
  {
    forall j | at <= j < e ensures !IsSep(r[j]) {
      assert r[j] == r[at..][j - at] == p[j - at] && r[j] in p;
    }
    assert r[e] == r[at..][|p|] == SP;
    NextSepIs(r, at, e);
    assert r[e + 1..] == r[at..][|p| + 1..];
    assert r[at..e] == r[at..][..|p|] == p;
  }

  /** The field up to the next separator is split off first. */
  lemma {:induction false} SplitFromStep(r: seq<byte>, at: nat, e: nat, field: seq<byte>, tail: seq<seq<byte>>)
    requires at <= |r| && e == NextSep(r, at) && e < |r|
    requires field == r[at..e] && tail == SplitFrom(r, e + 1)
    ensures SplitFrom(r, at) == [field] + tail
  {
  }

  /** Searching a suffix for a separator is searching the record from a
      later offset. */
  lemma {:induction false} NextSepOfSuffix(r: seq<byte>, o: nat, j: nat)
    requires o + j <= |r|
    ensures NextSep(r[o..], j) == NextSep(r, o + j) - o
    decreases |r| - o - j
  {
    if o + j < |r| && !IsSep(r[o + j]) {
      NextSepOfSuffix(r, o, j + 1);
    }
  }

  /** With no separator left, the rest of the record is the last field. */
  lemma {:induction false} SplitFromLast(r: seq<byte>, at: nat, field: seq<byte>)
    requires at <= |r| && NextSep(r, at) == |r| && field == r[at..]
    ensures SplitFrom(r, at) == [field]
  {
  }

  /** Splitting a suffix is splitting the record from a later offset. */
  lemma {:induction false} SplitFromShift(r: seq<byte>, o: nat, j: nat)
    requires o + j <= |r|
    ensures SplitFrom(r[o..], j) == SplitFrom(r, o + j)
    decreases |r| - o - j
  {
    var t, e := r[o..], NextSep(r, o + j);
    NextSepOfSuffix(r, o, j);
    if e < |r| {
      var e', field := e - o, r[o + j..e];
      assert t[j..e'] == field;
      SplitFromShift(r, o, e' + 1);
      var tail := SplitFrom(r, e + 1);
      assert SplitFrom(t, e' + 1) == tail;
      SplitFromStep(t, j, e', field, tail);
      SplitFromStep(r, o + j, e, field, tail);
    } else {
      var field := r[o + j..];
      assert t[j..] == field;
      SplitFromLast(t, j, field);
      SplitFromLast(r, o + j, field);
    }
  }

  /** Joining a piece in front of a non-empty list puts a space between. */
  lemma {:induction false} JoinCons(head: seq<byte>, rest: seq<seq<byte>>)
    requires rest != []
    ensures Join([head] + rest) == head + [SP] + Join(rest)
  {
    assert ([head] + rest)[1..] == rest;
  }

  /** Spacing leaves the bytes before the next separator alone and turns
      that separator into a space. */
  lemma {:induction false} SpacedUpTo(r: seq<byte>, at: nat)
    requires at <= |r|
    ensures var e := NextSep(r, at);
      if e < |r| then Spaced(r)[at..] == r[at..e] + [SP] + Spaced(r)[e + 1..]
      else Spaced(r)[at..] == r[at..]
  {
    var e := NextSep(r, at);
    NoSepBefore(r, at);
    assert Spaced(r)[at..e] == r[at..e];
    if e < |r| {
      assert Spaced(r)[at..] == Spaced(r)[at..e] + [SP] + Spaced(r)[e + 1..];
    }
  }

  /** How many of the leading positions lie below m: where the walk over the
      split stops. */
  function Reached(pos: seq<nat>, m: nat): (n: nat)
    ensures n <= |pos|
    ensures forall j :: 0 <= j < n ==> pos[j] < m
    ensures n < |pos| ==> pos[n] >= m
  {
    if pos == [] || pos[0] >= m then 0 else 1 + Reached(pos[1..], m)
  }

  /** The fields at the given indices. */
  function Pick(fields: seq<seq<byte>>, idxs: seq<nat>): (ps: seq<seq<byte>>)
    requires forall j :: 0 <= j < |idxs| ==> idxs[j] < |fields|
    ensures |ps| == |idxs|
  {
    seq(|idxs|, j requires 0 <= j < |idxs| => fields[idxs[j]])
  }

  /** `key`: the result and the caller's buffer afterwards. With no table,
      or an empty one, the record is the key and the buffer is untouched.
      Otherwise the fields that the walk reaches are appended, separated by
      single spaces, and the key is the whole buffer if every selected field
      was reached. */
  function KeyOf(kf: KeyFinder, record: seq<byte>, s: seq<byte>): (Outcome, seq<byte>)
  {
    match kf.keys
    case None => (Ok(record), s)
    case Some((offs, last)) =>
      if offs == [] then (Ok(record), s)
      else
        var fields := SplitN(record, last + 2);
        var pos := Positions(offs);
        var n := Reached(pos, |fields|);
        var out := s + Join(Pick(fields, pos[..n]));
        (if n == |offs| then Ok(out) else Err, out)
  }

  /** `KeyFinder::key`, appending to the caller's buffer `s`. */
  method Key(kf: KeyFinder, record: seq<byte>, s: seq<byte>) returns (r: Outcome, out: seq<byte>)
    ensures (r, out) == KeyOf(kf, record, s)
    ensures kf.keys.None? ==> r == Ok(record) && out == s
    ensures r.Ok? && kf.keys.Some? && kf.keys.value.0 != [] ==> r.key == out
    ensures s <= out
  {
    if kf.keys.None? {
      return Ok(record), s;
    }
    var (offs, last) := kf.keys.value;
    if offs == [] {
      return Ok(record), s;
    }
    var fields := SplitN(record, last + 2);
    ghost var pos := Positions(offs);
    var current := 0;
    var consumed := 0;
    out := s;
    while current < |offs|
      invariant current <= |offs|
      invariant forall j :: 0 <= j < current ==> pos[j] < |fields|
      invariant consumed == if current == 0 then 0 else pos[current - 1] + 1
      invariant out == s + Join(Pick(fields, pos[..current]))
    {
      PositionsStep(offs, current);
      var at := consumed + offs[current];
      if at >= |fields| {
        break;
      }
      AppendField(fields, pos, current, s, out);
      if current > 0 {
        out := out + [SP];
      }
      out := out + fields[at];
      current := current + 1;
      consumed := at + 1;
    }
    ReachedIs(pos, |fields|, current);
    r := if current >= |offs| then Ok(out) else Err;
    KeyOfIs(kf, record, s, offs, last, fields, pos, current, out);
  }

  /** Appending the next reached field, after a space unless it is the
      first, extends the joined key by that field. */
  lemma {:induction false} AppendField(fields: seq<seq<byte>>, pos: seq<nat>, current: nat, s: seq<byte>, out: seq<byte>)
    requires current < |pos| && forall j :: 0 <= j <= current ==> pos[j] < |fields|
    requires out == s + Join(Pick(fields, pos[..current]))
    ensures out + (if current > 0 then [SP] else []) + fields[pos[current]] ==
      s + Join(Pick(fields, pos[..current + 1]))
  {
    var done := Pick(fields, pos[..current]);
    JoinSnoc(done, fields[pos[current]]);
    assert Pick(fields, pos[..current + 1]) == done + [fields[pos[current]]];
  }

  /** `KeyOf` once the walk's stopping point and output are known. */
  lemma {:induction false} KeyOfIs(kf: KeyFinder, record: seq<byte>, s: seq<byte>, offs: seq<nat>, last: nat,
                                   fields: seq<seq<byte>>, pos: seq<nat>, n: nat, out: seq<byte>)
    requires kf.keys == Some((offs, last)) && offs != []
    requires fields == SplitN(record, last + 2) && pos == Positions(offs)
    requires n == Reached(pos, |fields|) && out == s + Join(Pick(fields, pos[..n]))
    ensures KeyOf(kf, record, s) == (if n == |offs| then Ok(out) else Err, out)
  {
  }

  /** The walk stops where `Reached` says. */
  lemma {:induction false} ReachedIs(pos: seq<nat>, m: nat, n: nat)
    requires n <= |pos| && forall j :: 0 <= j < n ==> pos[j] < m
    requires n < |pos| ==> pos[n] >= m
    ensures Reached(pos, m) == n
  {
    if n > 0 {
      ReachedIs(pos[1..], m, n - 1);
    }
  }

  /** What `key` computes for a finder built from request `ks`: with no
      field selected the record is the key; otherwise the key is the buffer's
      prior contents followed by the selected fields of the full split,
      ascending and joined with single spaces, and it is an error exactly
      when the record lacks one of them, that is, when it has no more fields
      than the largest selected 0-based index. */
  lemma {:induction false} KeySelects(ks: seq<nat>, kf: KeyFinder, record: seq<byte>, s: seq<byte>)
    requires ks != [] && Increasing(Selected(ks))
    requires kf.keys == Some((Gaps(Selected(ks)), LastOr(Selected(ks), USIZE_MAX)))
    ensures Selected(ks) == [] ==> KeyOf(kf, record, s) == (Ok(record), s)
    ensures Selected(ks) != [] ==>
      var sel := Selected(ks);
      var full := Split(record);
      (KeyOf(kf, record, s).0.Ok? <==> LastOr(sel, 0) < |full|) &&
      ((forall j :: 0 <= j < |sel| ==> sel[j] < |full|) ==>
         KeyOf(kf, record, s).0 == Ok(s + Join(Pick(full, sel))))
  {
    var sel := Selected(ks);
    if sel != [] {
      SelectedKey(kf, record, s, sel);
    }
  }

  /** `KeySelects` for a non-empty ascending selection `sel`. */
  lemma {:induction false} SelectedKey(kf: KeyFinder, record: seq<byte>, s: seq<byte>, sel: seq<nat>)
    requires sel != [] && Increasing(sel)
    requires kf.keys == Some((Gaps(sel), LastOr(sel, USIZE_MAX)))
    ensures var full := Split(record);
      (KeyOf(kf, record, s).0.Ok? <==> LastOr(sel, 0) < |full|) &&
      ((forall j :: 0 <= j < |sel| ==> sel[j] < |full|) ==>
         KeyOf(kf, record, s).0 == Ok(s + Join(Pick(full, sel))))
  {
    var offs := Gaps(sel);
    PositionsOfGaps(sel);
    var last := LastOr(sel, USIZE_MAX);
    assert last == sel[|sel| - 1] == LastOr(sel, 0);
    var fields := SplitN(record, last + 2);
    var full := Split(record);
    var n := Reached(sel, |fields|);
    var out := s + Join(Pick(fields, sel[..n]));
    KeyOfIs(kf, record, s, offs, last, fields, sel, n, out);
    WalkOutcome(record, sel, last, fields, full, n);
  }

  /** The walk over the bounded split reaches every selected field exactly
      when the full split has the last of them, and then picks the same
      fields as the full split. */
  lemma {:induction false} WalkOutcome(record: seq<byte>, sel: seq<nat>, last: nat, fields: seq<seq<byte>>,
                                       full: seq<seq<byte>>, n: nat)
    requires sel != [] && Increasing(sel) && last == sel[|sel| - 1]
    requires fields == SplitN(record, last + 2) && full == Split(record)
    requires n == Reached(sel, |fields|)
    ensures n == |sel| <==> last < |full|
    ensures (forall j :: 0 <= j < |sel| ==> sel[j] < |full|) <==> last < |full|
    ensures n == |sel| ==> sel[..n] == sel && Pick(fields, sel) == Pick(full, sel)
  {
    FieldsAgree(record, last, fields, full);
    UpToLast(sel);
    if last < |full| {
      ReachedIs(sel, |fields|, |sel|);
      assert sel[..n] == sel;
      forall j | 0 <= j < |sel| ensures Pick(fields, sel)[j] == Pick(full, sel)[j] {
        assert sel[j] <= last;
      }
    }
  }

  /** Every element of an ascending sequence is at most its last. */
  lemma {:induction false} UpToLast(sel: seq<nat>)
    requires sel != [] && Increasing(sel)
    ensures forall j :: 0 <= j < |sel| ==> sel[j] <= sel[|sel| - 1]
  {
    forall j | 0 <= j < |sel| - 1 ensures sel[j] <= sel[|sel| - 1] {
    }
  }

  /** The bounded split used by `key` agrees with the full split on every
      field up to the last selected one. */
  lemma {:induction false} FieldsAgree(record: seq<byte>, last: nat, fields: seq<seq<byte>>, full: seq<seq<byte>>)
    requires fields == SplitN(record, last + 2) && full == Split(record)
    ensures last < |fields| <==> last < |full|
    ensures forall j :: 0 <= j <= last && j < |full| ==> j < |fields| && fields[j] == full[j]
  {
    SplitNAgrees(record, 0, last + 2, last);
    forall j | 0 <= j <= last && j < |full|
      ensures j < |fields| && fields[j] == full[j]
    {
      SplitNAgrees(record, 0, last + 2, j);
    }
  }

  /** No set mask entry below n, no index. */
  lemma {:induction false} IndicesNone(keep: seq<bool>, n: nat)
    requires n <= |keep| && forall i :: 0 <= i < n ==> !keep[i]
    ensures Indices(keep, n) == []
  {
    if n > 0 {
      IndicesNone(keep, n - 1);
    }
  }

  /** A request for the single field number f + 1 selects field f alone,
      and `KeyFinder::new` builds the table ([f], f) for it. */
  lemma {:induction false} SingleSelection(f: nat)
    ensures Selected([f + 1]) == [f]
    ensures Gaps([f]) == [f] && LastOr([f], USIZE_MAX) == f
  {
    var keep := Keep([f + 1]);
    assert Max([f + 1]) == f + 1;
    forall i | 0 <= i < f ensures !keep[i] {
      assert i + 1 !in [f + 1];
    }
    IndicesNone(keep, f);
    assert keep[f] && !keep[f + 1];
    assert Indices(keep, f + 1) == Indices(keep, f) + [f];
    assert Indices(keep, f + 2) == Indices(keep, f + 1);
  }


  /** A finder built for the single field number f + 1 keys a record by its
      field f, and fails on a record with no more than f fields. */
  lemma {:induction false} SingleFieldKey(kf: KeyFinder, f: nat, ps: seq<seq<byte>>, s: seq<byte>)
    requires kf.keys == Some(([f], f))
    requires ps != [] && forall j :: 0 <= j < |ps| ==> SepFree(ps[j])
    ensures KeyOf(kf, Join(ps), s).0 == if f < |ps| then Ok(s + ps[f]) else Err
  {
    var r := Join(ps);
    SingleSelection(f);
    JoinSplit(ps);
    KeySelects([f + 1], kf, r, s);
    if f < |ps| {
      assert Pick(ps, [f]) == [ps[f]];
    }
  }

  /** The fields, in order, of the access log line that the unit test of
      src/key_finder.rs keys; the line is these fields joined with single
      spaces. */
  const TEST_FIELDS: seq<string> :=
    ["92.109.155.34", "-", "-", "[09/Aug/2018:11:53:26", "+0200]", "\"GET", "/", "HTTP/2.0\"",
     "200", "3219", "\"https://www.facebook.com/\"", "\"Mozilla/5.0", "(Macintosh;", "Intel",
     "Mac", "OS", "X", "10_13_4)", "AppleWebKit/537.36", "(KHTML,", "like", "Gecko)",
     "Chrome/67.0.3396.99", "Safari/537.36\""]

  /** The test line's fields as bytes. */
  function TestFields(): (ps: seq<seq<byte>>)
    ensures |ps| == |TEST_FIELDS|
  {
    seq(|TEST_FIELDS|, i requires 0 <= i < |TEST_FIELDS| => Ascii(TEST_FIELDS[i]))
  }

  /** Printable ASCII text: no space, no tab, no control character. */
  predicate Printable(s: string)
  {
    forall i :: 0 <= i < |s| ==> '!' <= s[i] <= '~'
  }

  /** Printable text is one field. */
  lemma {:induction false} PrintableSepFree(s: string)
    requires Printable(s)
    ensures SepFree(Ascii(s))
  {
    forall c | c in Ascii(s) ensures !IsSep(c) {
      var i :| 0 <= i < |s| && Ascii(s)[i] == c;
    }
  }

  /** The test line's 24 fields are printable. The fact is split over six
      lemmas of four fields each only to keep each proof small. */
  lemma {:induction false} TestFieldsPrintable0()
    ensures forall j :: 0 <= j < 4 ==> Printable(TEST_FIELDS[j])
  {
    assert Printable(TEST_FIELDS[0]);
    assert Printable(TEST_FIELDS[1]);
    assert Printable(TEST_FIELDS[2]);
    assert Printable(TEST_FIELDS[3]);
  }

  lemma {:induction false} TestFieldsPrintable1()
    ensures forall j :: 4 <= j < 8 ==> Printable(TEST_FIELDS[j])
  {
    assert Printable(TEST_FIELDS[4]);
    assert Printable(TEST_FIELDS[5]);
    assert Printable(TEST_FIELDS[6]);
    assert Printable(TEST_FIELDS[7]);
  }

  lemma {:induction false} TestFieldsPrintable2()
    ensures forall j :: 8 <= j < 12 ==> Printable(TEST_FIELDS[j])
  {
    assert Printable(TEST_FIELDS[8]);
    assert Printable(TEST_FIELDS[9]);
    assert Printable(TEST_FIELDS[10]);
    assert Printable(TEST_FIELDS[11]);
  }

  lemma {:induction false} TestFieldsPrintable3()
    ensures forall j :: 12 <= j < 16 ==> Printable(TEST_FIELDS[j])
  {
    assert Printable(TEST_FIELDS[12]);
    assert Printable(TEST_FIELDS[13]);
    assert Printable(TEST_FIELDS[14]);
    assert Printable(TEST_FIELDS[15]);
  }

  lemma {:induction false} TestFieldsPrintable4()
    ensures forall j :: 16 <= j < 20 ==> Printable(TEST_FIELDS[j])
  {
    assert Printable(TEST_FIELDS[16]);
    assert Printable(TEST_FIELDS[17]);
    assert Printable(TEST_FIELDS[18]);
    assert Printable(TEST_FIELDS[19]);
  }

  lemma {:induction false} TestFieldsPrintable5()
    ensures forall j :: 20 <= j < 24 ==> Printable(TEST_FIELDS[j])
  {
    assert Printable(TEST_FIELDS[20]);
    assert Printable(TEST_FIELDS[21]);
    assert Printable(TEST_FIELDS[22]);
    assert Printable(TEST_FIELDS[23]);
  }

  lemma {:induction false} TestFieldsSepFree()
    ensures forall j :: 0 <= j < |TestFields()| ==> SepFree(TestFields()[j])
  {
    TestFieldsPrintable0();
    TestFieldsPrintable1();
    TestFieldsPrintable2();
    TestFieldsPrintable3();
    TestFieldsPrintable4();
    TestFieldsPrintable5();
    forall j | 0 <= j < |TestFields()| ensures SepFree(TestFields()[j]) {
      PrintableSepFree(TEST_FIELDS[j]);
    }
  }

  /** Helper of `KeyTest`: finders with the tables `SingleSelection` gives
      for the single fields 1, 7 and 9 key the test line by the client
      address "92.109.155.34", the requested path "/" and the status "200". */
  lemma {:induction false} TestLineKeys(kf1: KeyFinder, kf7: KeyFinder, kf9: KeyFinder)
    requires kf1.keys == Some(([0], 0)) && kf7.keys == Some(([6], 6)) && kf9.keys == Some(([8], 8))
    ensures KeyOf(kf1, Join(TestFields()), []).0 == Ok(Ascii("92.109.155.34"))
    ensures KeyOf(kf7, Join(TestFields()), []).0 == Ok(Ascii("/"))
    ensures KeyOf(kf9, Join(TestFields()), []).0 == Ok(Ascii("200"))
  {
    var ps := TestFields();
    TestFieldsSepFree();
    assert TEST_FIELDS[0] == "92.109.155.34" && TEST_FIELDS[6] == "/" && TEST_FIELDS[8] == "200";
    SingleFieldKey(kf1, 0, ps, []);
    assert [] + ps[0] == ps[0];
    SingleFieldKey(kf7, 6, ps, []);
    assert [] + ps[6] == ps[6];
    SingleFieldKey(kf9, 8, ps, []);
    assert [] + ps[8] == ps[8];
  }

  /** The `key` unit test: finders built by `new` for field 1 and for
      field 7 (and for field 9, the status) key the test line by its
      first, seventh and ninth fields, into a cleared string. */
  method KeyTest() returns (k1: Outcome, k7: Outcome, k9: Outcome)
    ensures k1 == Ok(Ascii("92.109.155.34"))
    ensures k7 == Ok(Ascii("/"))
    ensures k9 == Ok(Ascii("200"))
  {
    var f1: nat, f7: nat, f9: nat := 1, 7, 9;
    SingleSelection(f1 - 1);
    SingleSelection(f7 - 1);
    SingleSelection(f9 - 1);
    var kf1 := New(Some([f1]));
    var kf7 := New(Some([f7]));
    var kf9 := New(Some([f9]));
    TestLineKeys(kf1, kf7, kf9);
    var line := Join(TestFields());
    var s: seq<byte>;
    k1, s := Key(kf1, line, []);
    k7, s := Key(kf7, line, []);
    k9, s := Key(kf9, line, []);
  }
}
