/**
 The contents of a paged indexed array (src/mmp_barray.c) as a value: one sequence of records a
 page, in file order; and the index arithmetic of its two binary searches.
 */
module BArrayPages {
  datatype Rec<T> = Rec(present: bool, idx: nat, data: T)

  /** The records written so far, page by page. */
  type Chunks<T> = seq<seq<Rec<T>>>

  predicate NoneEmpty<T>(cs: Chunks<T>) {
    forall i :: 0 <= i < |cs| ==> |cs[i]| > 0
  }

  function First<T>(c: seq<Rec<T>>): nat
    requires |c| > 0
  {
    c[0].idx
  }

  function Last<T>(c: seq<Rec<T>>): nat
    requires |c| > 0
  {
    c[|c| - 1].idx
  }

  ghost predicate ChunkSorted<T>(c: seq<Rec<T>>) {
    forall i, j :: 0 <= i < j < |c| ==> c[i].idx < c[j].idx
  }

  /** Indexes increase within every page and from page to page. */
  ghost predicate Sorted<T>(cs: Chunks<T>) {
    && NoneEmpty(cs)
    && (forall i :: 0 <= i < |cs| ==> ChunkSorted(cs[i]))
    && (forall i, j :: 0 <= i < j < |cs| ==> Last(cs[i]) < First(cs[j]))
  }

  // ---- what is stored

  ghost predicate At<T>(cs: Chunks<T>, i: nat, j: nat, idx: nat) {
    i < |cs| && j < |cs[i]| && cs[i][j].idx == idx
  }

  /** A record for `idx` was written, deleted since or not. */
  ghost predicate Written<T>(cs: Chunks<T>, idx: nat) {
    exists i: nat, j: nat :: At(cs, i, j, idx)
  }

  ghost predicate MapsAt<T>(cs: Chunks<T>, i: nat, j: nat, idx: nat, data: T) {
    At(cs, i, j, idx) && cs[i][j].present && cs[i][j].data == data
  }

  /** The array maps `idx` to `data`. */
  ghost predicate Maps<T>(cs: Chunks<T>, idx: nat, data: T) {
    exists i: nat, j: nat :: MapsAt(cs, i, j, idx, data)
  }

  lemma WrittenOnce<T>(cs: Chunks<T>, i: nat, j: nat, i': nat, j': nat, idx: nat)
    requires Sorted(cs) && At(cs, i, j, idx) && At(cs, i', j', idx)
    ensures i == i' && j == j'
  {
    if i < i' { Across(cs, i, j, i', j'); }
    else if i' < i { Across(cs, i', j', i, j); }
    else { assert ChunkSorted(cs[i]); }
  }

  lemma Across<T>(cs: Chunks<T>, i: nat, j: nat, i': nat, j': nat)
    requires Sorted(cs) && i < i' < |cs| && j < |cs[i]| && j' < |cs[i']|
    ensures cs[i][j].idx < cs[i'][j'].idx
  {
    WithinEnds(cs, i, j);
    WithinEnds(cs, i', j');
    assert Last(cs[i]) < First(cs[i']);
  }

  lemma WithinEnds<T>(cs: Chunks<T>, i: nat, j: nat)
    requires Sorted(cs) && i < |cs| && j < |cs[i]|
    ensures First(cs[i]) <= cs[i][j].idx <= Last(cs[i])
  {
    assert ChunkSorted(cs[i]);
  }

  // ---- insertion

  predicate NeedsPage<T>(cs: Chunks<T>, cap: nat) {
    |cs| == 0 || |cs[|cs| - 1]| >= cap
  }

  /** A record goes behind the last one, on a new page if the last is full. */
  function Append<T>(cs: Chunks<T>, cap: nat, r: Rec<T>): (cs': Chunks<T>) {
    if NeedsPage(cs, cap) then cs + [[r]]
    else cs[|cs| - 1 := cs[|cs| - 1] + [r]]
  }

  /** What mmp_barray_insert looks at before it accepts an index: the last page only, and not even
      that when it is full. */
  predicate Accepts<T>(cs: Chunks<T>, cap: nat, idx: nat)
    requires NoneEmpty(cs)
  {
    NeedsPage(cs, cap) || idx > Last(cs[|cs| - 1])
  }

  /** Appending keeps the order exactly when the index is above the last one. */
  lemma AppendSortedIff<T>(cs: Chunks<T>, cap: nat, r: Rec<T>)
    requires Sorted(cs) && cap >= 1
    ensures Sorted(Append(cs, cap, r)) <==> |cs| == 0 || r.idx > Last(cs[|cs| - 1])
  {
    var cs', n := Append(cs, cap, r), |cs|;
    if n > 0 && r.idx > Last(cs[n - 1]) {
      forall i | 0 <= i < |cs'|
        ensures ChunkSorted(cs'[i])
      {
        if i < n { assert ChunkSorted(cs[i]); }
      }
      forall i, j | 0 <= i < j < |cs'|
        ensures Last(cs'[i]) < First(cs'[j])
      {
        if i < n - 1 {
          assert Last(cs[i]) < First(cs[n - 1]);
          WithinEnds(cs, n - 1, |cs[n - 1]| - 1);
        }
      }
    } else if n > 0 {
      if NeedsPage(cs, cap) {
        assert !(Last(cs'[n - 1]) < First(cs'[n]));
      } else {
        var c := cs'[n - 1];
        assert !(c[|c| - 2].idx < c[|c| - 1].idx);
        assert !ChunkSorted(cs'[n - 1]);
      }
    }
  }

  /** What is refused would break the order; and what is accepted breaks it exactly where the last page
      is full, which is not looked at. */
  lemma AcceptsIff<T>(cs: Chunks<T>, cap: nat, r: Rec<T>)
    requires Sorted(cs) && cap >= 1
    ensures !Accepts(cs, cap, r.idx) ==> !Sorted(Append(cs, cap, r))
    ensures Accepts(cs, cap, r.idx) && !Sorted(Append(cs, cap, r)) <==>
      |cs| > 0 && |cs[|cs| - 1]| >= cap && r.idx <= Last(cs[|cs| - 1])
  {
    AppendSortedIff(cs, cap, r);
  }

  lemma AppendMaps<T>(cs: Chunks<T>, cap: nat, idx: nat, data: T, k: nat, v: T)
    ensures Maps(Append(cs, cap, Rec(true, idx, data)), k, v) <==> Maps(cs, k, v) || (k == idx && v == data)
  {
    var cs', n := Append(cs, cap, Rec(true, idx, data)), |cs|;
    if i: nat, j: nat :| MapsAt(cs, i, j, k, v) { assert MapsAt(cs', i, j, k, v); }
    if i: nat, j: nat :| MapsAt(cs', i, j, k, v) {
      assert (i < n && j < |cs[i]| && MapsAt(cs, i, j, k, v)) || cs'[i][j] == Rec(true, idx, data);
    }
    var i, j := if NeedsPage(cs, cap) then n else n - 1, if NeedsPage(cs, cap) then 0 else |cs[n - 1]|;
    assert MapsAt(cs', i, j, idx, data);
  }

  // ---- deletion

  function Deleted<T>(cs: Chunks<T>, i: nat, j: nat): Chunks<T>
    requires i < |cs| && j < |cs[i]|
  {
    cs[i := cs[i][j := cs[i][j].(present := false)]]
  }

  /** Clearing one `present` bit takes one index out of the map. */
  lemma DeletedMaps<T>(cs: Chunks<T>, i: nat, j: nat, k: nat, v: T)
    requires Sorted(cs) && i < |cs| && j < |cs[i]|
    ensures Maps(Deleted(cs, i, j), k, v) <==> Maps(cs, k, v) && k != cs[i][j].idx
  {
    var cs', gone := Deleted(cs, i, j), cs[i][j].idx;
    assert At(cs, i, j, gone);
    if i': nat, j': nat :| MapsAt(cs, i', j', k, v) {
      if k != gone { assert MapsAt(cs', i', j', k, v); }
    }
    if i': nat, j': nat :| MapsAt(cs', i', j', k, v) {
      assert MapsAt(cs, i', j', k, v);
      if k == gone { WrittenOnce(cs, i, j, i', j', k); }
    }
  }

  lemma DeletedWritten<T>(cs: Chunks<T>, i: nat, j: nat, k: nat)
    requires i < |cs| && j < |cs[i]|
    ensures Written(Deleted(cs, i, j), k) <==> Written(cs, k)
  {
    var cs' := Deleted(cs, i, j);
    if i': nat, j': nat :| At(cs, i', j', k) { assert At(cs', i', j', k); }
    if i': nat, j': nat :| At(cs', i', j', k) { assert At(cs, i', j', k); }
  }

  /** The same records but for what they hold. */
  ghost predicate SameShape<T>(cs: Chunks<T>, cs': Chunks<T>) {
    && |cs'| == |cs| && (forall i :: 0 <= i < |cs| ==> |cs'[i]| == |cs[i]|)
    && forall i, j :: 0 <= i < |cs| && 0 <= j < |cs[i]| ==> cs'[i][j].idx == cs[i][j].idx
  }

  lemma DeletedSorted<T>(cs: Chunks<T>, i: nat, j: nat)
    requires Sorted(cs) && i < |cs| && j < |cs[i]|
    ensures Sorted(Deleted(cs, i, j))
  {
    var cs' := Deleted(cs, i, j);
    forall k | 0 <= k < |cs'|
      ensures ChunkSorted(cs'[k]) && |cs'[k]| == |cs[k]| > 0 && First(cs'[k]) == First(cs[k])
        && Last(cs'[k]) == Last(cs[k])
    {
      assert ChunkSorted(cs[k]);
    }
  }

  // ---- the page table rebuilt from the file

  datatype Head = Head(nData: nat, start: nat, end: nat)

  const INVALID_IDX := 0xFFFF_FFFF

  /** The rebuild loop of mmp_barray_create over the slots of one page. */
  function Rebuilt<T>(slots: seq<Rec<T>>): (h: Head)
    ensures h.nData <= |slots|
  {
    if slots == [] then Head(0, INVALID_IDX, INVALID_IDX) else
    var h, r := Rebuilt(slots[..|slots| - 1]), slots[|slots| - 1];
    if !r.present then h
    else Head((h.nData + 1) % 0x8000, if h.start == INVALID_IDX then r.idx else h.start, r.idx)
  }

  /** What the page table of the running array holds for a page. */
  function HeadOf<T>(c: seq<Rec<T>>): Head
    requires |c| > 0
  {
    Head(|c|, First(c), Last(c))
  }

  predicate AllPresent<T>(c: seq<Rec<T>>) {
    forall j :: 0 <= j < |c| ==> c[j].present
  }

  lemma {:induction false} RebuiltAbsent<T>(c: seq<Rec<T>>, rest: seq<Rec<T>>)
    requires forall j :: 0 <= j < |rest| ==> !rest[j].present
    ensures Rebuilt(c + rest) == Rebuilt(c)
  {
    if rest == [] {
      assert c + rest == c;
    } else {
      var n := |rest| - 1;
      assert (c + rest)[..|c + rest| - 1] == c + rest[..n];
      RebuiltAbsent(c, rest[..n]);
    }
  }

  lemma {:induction false} RebuiltCount<T>(c: seq<Rec<T>>)
    requires |c| < 0x8000 && forall j :: 0 <= j < |c| ==> c[j].idx < INVALID_IDX
    ensures var h := Rebuilt(c);
      && h.nData <= |c| && (h.nData == |c| <==> AllPresent(c))
      && (|c| > 0 && AllPresent(c) ==> h == HeadOf(c))
  {
    if c != [] {
      var n := |c| - 1;
      RebuiltCount(c[..n]);
      assert AllPresent(c) <==> AllPresent(c[..n]) && c[n].present;
      if n == 0 { assert c[..n] == []; }
    }
  }

  /** Reopening finds the same page table for a page exactly when no record of it was deleted. */
  lemma RebuiltIff<T>(c: seq<Rec<T>>, rest: seq<Rec<T>>)
    requires 0 < |c| < 0x8000 && forall j :: 0 <= j < |c| ==> c[j].idx < INVALID_IDX
    requires forall j :: 0 <= j < |rest| ==> !rest[j].present
    ensures Rebuilt(c + rest) == HeadOf(c) <==> AllPresent(c)
  {
    RebuiltAbsent(c, rest);
    RebuiltCount(c);
  }

  /** The indexes of the records that are there, in order. */
  function PresentIdx<T>(c: seq<Rec<T>>): (ps: seq<nat>)
    ensures |ps| <= |c|
  {
    if c == [] then []
    else PresentIdx(c[..|c| - 1]) + if c[|c| - 1].present then [c[|c| - 1].idx] else []
  }

  /** Their number, the first and the last of them. */
  function Summary(ps: seq<nat>): Head {
    if ps == [] then Head(0, INVALID_IDX, INVALID_IDX) else Head(|ps|, ps[0], ps[|ps| - 1])
  }

  lemma {:induction false} RebuiltCounts<T>(c: seq<Rec<T>>)
    requires |c| < 0x8000 && forall j :: 0 <= j < |c| ==> c[j].idx < INVALID_IDX
    ensures Rebuilt(c) == Summary(PresentIdx(c))
    ensures forall i :: 0 <= i < |PresentIdx(c)| ==> PresentIdx(c)[i] < INVALID_IDX
  {
    if c != [] { RebuiltCounts(c[..|c| - 1]); }
  }

  /** Whatever was deleted, reopening finds for a page how many records are there, the first and the last
      of them. */
  lemma RebuiltIs<T>(c: seq<Rec<T>>, rest: seq<Rec<T>>)
    requires |c| < 0x8000 && forall j :: 0 <= j < |c| ==> c[j].idx < INVALID_IDX
    requires forall j :: 0 <= j < |rest| ==> !rest[j].present
    ensures Rebuilt(c + rest) == Summary(PresentIdx(c))
  {
    RebuiltAbsent(c, rest);
    RebuiltCounts(c);
  }

  /** The indexes that are there are those of present records, and the record in slot `j` is among the
      first j + 1 of them. */
  lemma {:induction false} PresentAt<T>(c: seq<Rec<T>>, j: nat)
    requires j < |c| && c[j].present
    ensures exists i :: 0 <= i <= j && i < |PresentIdx(c)| && PresentIdx(c)[i] == c[j].idx
    decreases |c|
  {
    var n := |c| - 1;
    if j < n {
      PresentAt(c[..n], j);
      var i :| 0 <= i <= j && i < |PresentIdx(c[..n])| && PresentIdx(c[..n])[i] == c[j].idx;
      assert PresentIdx(c)[i] == c[j].idx;
    } else {
      assert PresentIdx(c)[|PresentIdx(c[..n])|] == c[j].idx;
    }
  }

  lemma {:induction false} PresentFrom<T>(c: seq<Rec<T>>, i: nat) returns (j: nat)
    requires i < |PresentIdx(c)|
    ensures i <= j < |c| && c[j].present && PresentIdx(c)[i] == c[j].idx
    decreases |c|
  {
    var n := |c| - 1;
    if i < |PresentIdx(c[..n])| { j := PresentFrom(c[..n], i); } else { j := n; }
  }

  lemma {:induction false} PresentSorted<T>(c: seq<Rec<T>>, i: nat, i': nat)
    requires ChunkSorted(c) && i < i' < |PresentIdx(c)|
    ensures PresentIdx(c)[i] < PresentIdx(c)[i']
    decreases |c|
  {
    var n := |c| - 1;
    if i' < |PresentIdx(c[..n])| {
      PresentSorted(c[..n], i, i');
    } else {
      var j := PresentFrom(c[..n], i);
    }
  }
}
