/**
 The two binary searches of src/mmp_barray.c in 32-bit unsigned arithmetic: what search_page
 finds, and for exactly which absent indexes the loop of search_in_page comes to an end.
 */
module BArrayProbe {
  import opened Status
  import opened BArrayPages

  const MOD32 := 0x1_0000_0000

  function Mid(beg: nat, end: nat): (mid: nat) {
    (end + beg) % MOD32 / 2
  }

  /** mid-1 in unsigned arithmetic. */
  function Pred(mid: nat): (r: nat)
    ensures mid > 0 ==> r == mid - 1
    ensures mid == 0 ==> r == INVALID_IDX
  {
    if mid == 0 then INVALID_IDX else mid - 1
  }

  // ---- search_page

  /** The first page that ends at or behind `idx`. */
  function FirstPage<T>(cs: Chunks<T>, idx: nat): (p: nat)
    requires NoneEmpty(cs)
    ensures p <= |cs|
    ensures forall i :: 0 <= i < p ==> Last(cs[i]) < idx
    ensures p < |cs| ==> idx <= Last(cs[p])
  {
    if |cs| == 0 || idx <= Last(cs[0]) then 0 else 1 + FirstPage(cs[1..], idx)
  }

  /** It is the page covering the index if there is one, or else the first page above it. */
  lemma FirstPageCovers<T>(cs: Chunks<T>, idx: nat, i: nat)
    requires Sorted(cs) && i < |cs|
    ensures First(cs[i]) <= idx <= Last(cs[i]) ==> FirstPage(cs, idx) == i
    ensures idx < First(cs[i]) ==> FirstPage(cs, idx) <= i
  {
    var p := FirstPage(cs, idx);
    WithinEnds(cs, i, 0);
    if p < i { Across(cs, p, |cs[p]| - 1, i, 0); }
  }

  lemma FirstPageBehind<T>(cs: Chunks<T>, idx: nat, i: nat)
    requires Sorted(cs) && i < |cs| && Last(cs[i]) < idx
    ensures i < FirstPage(cs, idx)
  {
    forall k | 0 <= k <= i
      ensures Last(cs[k]) < idx
    {
      if k < i { Across(cs, k, |cs[k]| - 1, i, |cs[i]| - 1); }
    }
  }

  /** What the loop of search_page knows: every page before `beg` ends below the index, every page
      behind `end` starts above it. */
  ghost predicate Between<T>(cs: Chunks<T>, idx: nat, beg: nat, end: nat)
    requires NoneEmpty(cs)
  {
    && beg < |cs| && beg <= FirstPage(cs, idx)
    && if end == INVALID_IDX then beg == 0 == FirstPage(cs, idx)
       else end <= |cs| && beg <= end + 1 && FirstPage(cs, idx) <= end + 1
  }

  lemma BetweenNext<T>(cs: Chunks<T>, idx: nat, beg: nat, end: nat, mid: nat)
    requires Sorted(cs) && 0 < |cs| <= 0x4000_0000 && idx <= Last(cs[|cs| - 1]) && mid == Mid(beg, end)
    requires Between(cs, idx, beg, end) && beg <= end && end != INVALID_IDX
    ensures mid < |cs| && beg <= mid <= end
    ensures idx < First(cs[mid]) ==> Between(cs, idx, beg, Pred(mid))
    ensures idx > Last(cs[mid]) ==> Between(cs, idx, mid + 1, end)
    ensures First(cs[mid]) <= idx <= Last(cs[mid]) ==> FirstPage(cs, idx) == mid
  {
    MidIs(beg, end);
    var p := FirstPage(cs, idx);
    FirstPageCovers(cs, idx, mid);
    if idx > Last(cs[mid]) {
      FirstPageBehind(cs, idx, mid);
      FirstPageExists(cs, idx);
    }
  }

  lemma MidIs(beg: nat, end: nat)
    requires beg + end < MOD32 && beg <= end
    ensures Mid(beg, end) == (beg + end) / 2 && beg <= Mid(beg, end) <= end
    ensures beg < end ==> Mid(beg, end) < end
  {
  }

  lemma FirstPageExists<T>(cs: Chunks<T>, idx: nat)
    requires NoneEmpty(cs) && |cs| > 0 && idx <= Last(cs[|cs| - 1])
    ensures FirstPage(cs, idx) < |cs|
  {
  }

  /** The loop of search_page, literally: no answer where it probes a place outside the table. */
  function SearchFrom<T>(cs: Chunks<T>, idx: nat, beg: nat, end: nat): (p: Option<nat>)
    requires NoneEmpty(cs) && |cs| <= 0x4000_0000 && beg <= |cs| && (end <= |cs| || end == INVALID_IDX)
    decreases if end == INVALID_IDX then 0 else end + 1 - beg
  {
    if beg > end || end == INVALID_IDX then Some(beg) else
    var mid := Mid(beg, end);
    if mid >= |cs| then None
    else if idx < First(cs[mid]) then SearchFrom(cs, idx, beg, Pred(mid))
    else if idx > Last(cs[mid]) then SearchFrom(cs, idx, mid + 1, end)
    else Some(mid)
  }

  /** One round of it. */
  lemma SearchRound<T>(cs: Chunks<T>, idx: nat, beg: nat, end: nat, mid: nat)
    requires NoneEmpty(cs) && beg <= |cs| <= 0x4000_0000 && beg <= end <= |cs| && mid == Mid(beg, end)
    ensures beg <= mid <= end
    ensures SearchFrom(cs, idx, beg, end) ==
      if mid >= |cs| then None
      else if idx < First(cs[mid]) then SearchFrom(cs, idx, beg, Pred(mid))
      else if idx > Last(cs[mid]) then SearchFrom(cs, idx, mid + 1, end)
      else Some(mid)
  {
    MidIs(beg, end);
  }

  /** The loop stands at its end, at the page wanted. */
  lemma BetweenNone<T>(cs: Chunks<T>, idx: nat, beg: nat, end: nat)
    requires NoneEmpty(cs) && Between(cs, idx, beg, end) && (beg > end || end == INVALID_IDX)
    ensures beg == FirstPage(cs, idx)
  {
  }

  lemma {:induction false} SearchFinds<T>(cs: Chunks<T>, idx: nat, beg: nat, end: nat, p: nat)
    requires Sorted(cs) && 0 < |cs| <= 0x4000_0000 && idx <= Last(cs[|cs| - 1]) && p == FirstPage(cs, idx)
    requires Between(cs, idx, beg, end) && beg <= |cs| && (end <= |cs| || end == INVALID_IDX)
    ensures SearchFrom(cs, idx, beg, end) == Some(p)
    decreases if end == INVALID_IDX then 0 else end + 1 - beg
  {
    if beg > end || end == INVALID_IDX {
      BetweenNone(cs, idx, beg, end);
    } else {
      var mid := Mid(beg, end);
      BetweenNext(cs, idx, beg, end, mid);
      if idx < First(cs[mid]) {
        SearchFinds(cs, idx, beg, Pred(mid), p);
      } else if idx > Last(cs[mid]) {
        SearchFinds(cs, idx, mid + 1, end, p);
      }
    }
  }

  lemma AboveAll<T>(cs: Chunks<T>, idx: nat, i: nat)
    requires Sorted(cs) && i < |cs| && idx > Last(cs[|cs| - 1])
    ensures First(cs[i]) <= Last(cs[i]) < idx
  {
    WithinEnds(cs, i, 0);
    if i < |cs| - 1 { Across(cs, i, |cs[i]| - 1, |cs| - 1, |cs[|cs| - 1]| - 1); }
  }

  lemma {:induction false} SearchLeaves<T>(cs: Chunks<T>, idx: nat, beg: nat)
    requires Sorted(cs) && beg <= |cs| <= 0x4000_0000 && 0 < |cs| && idx > Last(cs[|cs| - 1])
    ensures SearchFrom(cs, idx, beg, |cs|) == None
    decreases |cs| - beg
  {
    var mid := Mid(beg, |cs|);
    MidIs(beg, |cs|);
    if mid < |cs| {
      AboveAll(cs, idx, mid);
      SearchLeaves(cs, idx, mid + 1);
    }
  }

  /** search_page probes a place outside the page table if and only if the index lies behind the last
      page; otherwise it returns the first page that ends at or behind the index. */
  lemma SearchPageIff<T>(cs: Chunks<T>, idx: nat)
    requires Sorted(cs) && 0 < |cs| <= 0x4000_0000
    ensures SearchFrom(cs, idx, 0, |cs|) == None <==> idx > Last(cs[|cs| - 1])
    ensures idx <= Last(cs[|cs| - 1]) ==> SearchFrom(cs, idx, 0, |cs|) == Some(FirstPage(cs, idx))
  {
    if idx > Last(cs[|cs| - 1]) {
      SearchLeaves(cs, idx, 0);
    } else {
      FirstPageExists(cs, idx);
      SearchFinds(cs, idx, 0, |cs|, FirstPage(cs, idx));
    }
  }

  /** One page with one record, and the index behind it: the table is read past its end. */
  lemma OneBehindTheEnd<T>(d: T)
    ensures SearchFrom([[Rec(true, 1, d)]], 2, 0, 1) == None
  {
    SearchLeaves([[Rec(true, 1, d)]], 2, 0);
  }

  // ---- one round of the loop in search_in_page

  datatype Window = Window(beg: nat, end: nat)

  /** The window after a probe that does not hit. */
  function Narrow<T>(c: seq<Rec<T>>, idx: nat, w: Window): Window
    requires Mid(w.beg, w.end) < |c|
  {
    var mid := Mid(w.beg, w.end);
    if idx < c[mid].idx then Window(w.beg, Pred(mid)) else Window(mid + 1, w.end)
  }

  /** How many records of the page lie below `idx`. */
  function Rank<T>(c: seq<Rec<T>>, idx: nat): (r: nat)
    requires ChunkSorted(c)
    ensures r <= |c|
    ensures forall j :: 0 <= j < r ==> c[j].idx < idx
    ensures forall j :: r <= j < |c| ==> c[j].idx >= idx
  {
    if c == [] || c[|c| - 1].idx < idx then |c|
    else Rank(c[..|c| - 1], idx)
  }

  ghost predicate InChunk<T>(c: seq<Rec<T>>, idx: nat) {
    exists j :: 0 <= j < |c| && c[j].idx == idx
  }

  /** Whether halving a window of `n` records around the gap below its record `r` always ends at one
      record, and never at none. */
  predicate GapOk(n: nat, r: nat)
    requires r <= n
    decreases n
  {
    n == 1 ||
    (n > 1 &&
     var mid := (n - 1) / 2;
     if r <= mid then GapOk(mid, r) else GapOk(n - 1 - mid, r - mid - 1))
  }

  /** The loop is in a window of the page that `idx` can still be in, and it will end. */
  ghost predicate Ends<T>(c: seq<Rec<T>>, idx: nat, w: Window)
    requires ChunkSorted(c)
  {
    && |c| < 0x8000 && w.beg <= w.end < |c|
    && w.beg <= Rank(c, idx)
    && if InChunk(c, idx) then Rank(c, idx) <= w.end
       else Rank(c, idx) <= w.end + 1 && GapOk(w.end - w.beg + 1, Rank(c, idx) - w.beg)
  }

  lemma EndsNext<T>(c: seq<Rec<T>>, idx: nat, w: Window)
    requires ChunkSorted(c) && Ends(c, idx, w) && w.beg != w.end && c[Mid(w.beg, w.end)].idx != idx
    ensures var w' := Narrow(c, idx, w); Ends(c, idx, w') && w'.end - w'.beg < w.end - w.beg
  {
    MidIs(w.beg, w.end);
    var mid := (w.beg + w.end) / 2;
    if InChunk(c, idx) {
      StoredAtRank(c, idx);
    } else {
      GapHalves(w.beg, w.end, Rank(c, idx), mid);
    }
    assert idx < c[mid].idx <==> Rank(c, idx) <= mid;
  }

  /** The half of a window that a gap lies in is one that halving isolates, and not an empty one. */
  lemma GapHalves(beg: nat, end: nat, r: nat, mid: nat)
    requires beg < end && beg <= r <= end + 1 && mid == (beg + end) / 2 && GapOk(end - beg + 1, r - beg)
    ensures r <= mid ==> beg < mid && GapOk(mid - beg, r - beg)
    ensures r > mid ==> GapOk(end - mid, r - mid - 1)
  {
    Halves(end - beg + 1, r - beg);
    assert (end - beg + 1 - 1) / 2 == mid - beg;
  }

  /** The same for the two branches of the round. */
  lemma ProbeRound<T>(c: seq<Rec<T>>, idx: nat, beg: nat, end: nat, mid: nat)
    requires ChunkSorted(c) && Ends(c, idx, Window(beg, end)) && beg != end && mid == Mid(beg, end)
    ensures beg <= mid < |c|
    ensures idx < c[mid].idx ==> Ends(c, idx, Window(beg, Pred(mid))) && Pred(mid) < end
    ensures idx > c[mid].idx ==> Ends(c, idx, Window(mid + 1, end))
  {
    MidIs(beg, end);
    if c[mid].idx != idx { EndsNext(c, idx, Window(beg, end)); }
  }

  lemma StoredAtRank<T>(c: seq<Rec<T>>, idx: nat)
    requires ChunkSorted(c)
    ensures InChunk(c, idx) <==> Rank(c, idx) < |c| && c[Rank(c, idx)].idx == idx
  {
  }

  /** At one record the loop is done, and that record tells. */
  lemma EndsAtOne<T>(c: seq<Rec<T>>, idx: nat, w: Window)
    requires ChunkSorted(c) && Ends(c, idx, w) && w.beg == w.end
    ensures c[w.beg].idx == idx <==> InChunk(c, idx)
  {
    StoredAtRank(c, idx);
  }

  // ---- a gap for which the loop does not end

  /** The window after `k` probes, as long as they stay inside the page. */
  function After<T>(c: seq<Rec<T>>, idx: nat, k: nat): Window {
    if k == 0 then Window(0, if |c| == 0 then INVALID_IDX else |c| - 1)
    else
      var w := After(c, idx, k - 1);
      if Mid(w.beg, w.end) < |c| then Narrow(c, idx, w) else w
  }

  ghost predicate Gap<T>(c: seq<Rec<T>>, idx: nat) {
    ChunkSorted(c) && 0 < |c| < 0x8000 && First(c) < idx < Last(c) && !InChunk(c, idx)
  }

  /** Either the window still has at least two records, or it has run empty, and then for good. */
  ghost predicate NeverEnds<T>(c: seq<Rec<T>>, idx: nat, w: Window)
    requires ChunkSorted(c)
  {
    && w.beg <= Rank(c, idx) <= w.end + 1 && w.end < |c|
    && ((w.beg < w.end && !GapOk(w.end - w.beg + 1, Rank(c, idx) - w.beg)) || 0 < w.beg == w.end + 1)
  }

  lemma StaysEmpty<T>(c: seq<Rec<T>>, idx: nat, w: Window)
    requires Gap(c, idx) && NeverEnds(c, idx, w) && w.beg == w.end + 1
    ensures Mid(w.beg, w.end) < |c| && c[Mid(w.beg, w.end)].idx != idx && Narrow(c, idx, w) == w
  {
    assert Mid(w.beg, w.end) == w.end;
    assert c[w.end].idx < idx;
  }

  lemma StaysOpen<T>(c: seq<Rec<T>>, idx: nat, w: Window, mid: nat)
    requires Gap(c, idx) && NeverEnds(c, idx, w) && w.beg < w.end && mid == (w.beg + w.end) / 2
    ensures c[mid].idx != idx && Mid(w.beg, w.end) == mid
    ensures idx < c[mid].idx ==> NeverEnds(c, idx, Window(w.beg, Pred(mid)))
    ensures idx > c[mid].idx ==> NeverEnds(c, idx, Window(mid + 1, w.end))
  {
    var r := Rank(c, idx);
    assert idx < c[mid].idx <==> r <= mid;
    MidIs(w.beg, w.end);
    HalfStays(w.beg, w.end, r, mid);
    assert 0 < r;
  }

  lemma HalfStays(beg: nat, end: nat, r: nat, mid: nat)
    requires beg < end && beg <= r <= end + 1 && mid == (beg + end) / 2 && !GapOk(end - beg + 1, r - beg)
    ensures r <= mid && beg < mid ==> !GapOk(mid - beg, r - beg)
    ensures r > mid ==> !GapOk(end - mid, r - mid - 1)
  {
    var n := end - beg + 1;
    Halves(n, r - beg);
    assert (n - 1) / 2 == mid - beg;
  }

  lemma NeverEndsNext<T>(c: seq<Rec<T>>, idx: nat, w: Window)
    requires Gap(c, idx) && NeverEnds(c, idx, w)
    ensures Mid(w.beg, w.end) < |c| && c[Mid(w.beg, w.end)].idx != idx
    ensures NeverEnds(c, idx, Narrow(c, idx, w))
  {
    if w.beg == w.end + 1 {
      StaysEmpty(c, idx, w);
    } else {
      StaysOpen(c, idx, w, (w.beg + w.end) / 2);
    }
  }

  /** search_in_page on a gap index: its loop ends, having found nothing, if and only if the halving
      of n_data records around the gap is GapOk; otherwise it goes on forever, without a hit. */
  lemma {:induction false} GapLoops<T>(c: seq<Rec<T>>, idx: nat, k: nat)
    requires Gap(c, idx) && !GapOk(|c|, Rank(c, idx))
    ensures var w := After(c, idx, k);
      w.beg != w.end && Mid(w.beg, w.end) < |c| && c[Mid(w.beg, w.end)].idx != idx
    ensures NeverEnds(c, idx, After(c, idx, k))
  {
    if k == 0 {
      assert Rank(c, idx) >= 1;
    } else {
      GapLoops(c, idx, k - 1);
      NeverEndsNext(c, idx, After(c, idx, k - 1));
    }
    NeverEndsNext(c, idx, After(c, idx, k));
  }

  /** search_in_page comes to an end: some number of probes leaves one record or hits. */
  ghost predicate Stops<T>(c: seq<Rec<T>>, idx: nat) {
    exists k: nat :: StopsAfter(c, idx, k)
  }

  ghost predicate StopsAfter<T>(c: seq<Rec<T>>, idx: nat, k: nat) {
    var w := After(c, idx, k);
    w.beg == w.end || (Mid(w.beg, w.end) < |c| && c[Mid(w.beg, w.end)].idx == idx)
  }

  lemma {:induction false} EndsStops<T>(c: seq<Rec<T>>, idx: nat, k: nat, w: Window)
    requires ChunkSorted(c) && w == After(c, idx, k) && Ends(c, idx, w)
    ensures Stops(c, idx)
    decreases w.end - w.beg
  {
    if StopsAfter(c, idx, k) { return; }
    MidIs(w.beg, w.end);
    EndsNext(c, idx, w);
    EndsStops(c, idx, k + 1, Narrow(c, idx, w));
  }

  /** For every index between the ends of a page: search_in_page comes to an end exactly when the
      index has a record, or lies in a gap that halving isolates. */
  lemma StopsIff<T>(c: seq<Rec<T>>, idx: nat)
    requires ChunkSorted(c) && 0 < |c| < 0x8000 && First(c) <= idx <= Last(c)
    ensures Stops(c, idx) <==> InChunk(c, idx) || GapOk(|c|, Rank(c, idx))
  {
    if InChunk(c, idx) || GapOk(|c|, Rank(c, idx)) {
      StoredAtRank(c, idx);
      EndsStops(c, idx, 0, After(c, idx, 0));
    } else {
      assert c[0].idx != idx && c[|c| - 1].idx != idx;
      if k: nat :| StopsAfter(c, idx, k) { GapLoops(c, idx, k); }
    }
  }

  // ---- a page reopened with deleted records

  /** A page reopened counts its present records, and the search looks at so many slots: it finds a
      record that is there if and only if its slot is one of them. */
  lemma ReopenedFindsIff<T>(c: seq<Rec<T>>, j: nat)
    requires ChunkSorted(c) && |c| < 0x8000 && j < |c| && c[j].present
    ensures var n, idx := |PresentIdx(c)|, c[j].idx;
      && 0 < n <= |c| && PresentIdx(c)[0] <= idx <= PresentIdx(c)[n - 1]
      && ChunkSorted(c[..n]) && Ends(c[..n], idx, Window(0, n - 1))
      && (InChunk(c[..n], idx) <==> j < n)
  {
    PresentAt(c, j);
    var ps, idx := PresentIdx(c), c[j].idx;
    var i :| 0 <= i <= j && i < |ps| && ps[i] == idx;
    if i > 0 { PresentSorted(c, 0, i); }
    if i < |ps| - 1 { PresentSorted(c, i, |ps| - 1); }
    FirstSlots(c, |ps|, j);
  }

  lemma FirstSlots<T>(c: seq<Rec<T>>, n: nat, j: nat)
    requires ChunkSorted(c) && 0 < n <= |c| < 0x8000 && j < |c|
    ensures ChunkSorted(c[..n]) && Ends(c[..n], c[j].idx, Window(0, n - 1))
    ensures InChunk(c[..n], c[j].idx) <==> j < n
  {
    var d, idx := c[..n], c[j].idx;
    if j < n {
      assert d[j].idx == idx;
      StoredAtRank(d, idx);
    } else {
      assert forall k :: 0 <= k < n ==> d[k].idx < idx;
      assert Rank(d, idx) == n;
      RightEdgeOk(n);
    }
  }

  /** Of three records the middle one deleted: the last one is there, and not found after reopening. */
  lemma ThirdIsLost<T>(d: T)
    ensures var c := [Rec(true, 1, d), Rec(false, 2, d), Rec(true, 3, d)];
      ChunkSorted(c) && Summary(PresentIdx(c)) == Head(2, 1, 3) && !InChunk(c[..2], 3)
  {
    var c := [Rec(true, 1, d), Rec(false, 2, d), Rec(true, 3, d)];
    assert c[..2] == [Rec(true, 1, d), Rec(false, 2, d)] && c[..2][..1] == [Rec(true, 1, d)] && c[..2][..1][..0] == [];
    assert PresentIdx(c[..2][..1]) == [1] && PresentIdx(c[..2]) == [1] && PresentIdx(c) == [1, 3];
  }

  // ---- for which page sizes every gap is reported

  predicate PowerOfTwo(n: nat)
    decreases n
  {
    n == 1 || (n > 1 && n % 2 == 0 && PowerOfTwo(n / 2))
  }

  lemma {:induction false} RightEdgeOk(n: nat)
    requires n >= 1
    ensures GapOk(n, n)
    decreases n
  {
    if n > 1 { RightEdgeOk(n - 1 - (n - 1) / 2); }
  }

  ghost predicate AllOk(n: nat) {
    forall r :: 0 <= r <= n ==> GapOk(n, r)
  }

  ghost predicate AllButLeftOk(n: nat) {
    forall r :: 1 <= r <= n ==> GapOk(n, r)
  }

  /** Halving `n` records: the gaps below the middle record, and those above. */
  lemma Halves(n: nat, r: nat)
    requires n >= 2 && r <= n
    ensures var mid := (n - 1) / 2;
      if r <= mid then GapOk(n, r) <==> GapOk(mid, r) else GapOk(n, r) <==> GapOk(n - 1 - mid, r - mid - 1)
  {
  }

  lemma AllOkHalves(n: nat)
    requires n >= 2
    ensures var a := (n - 1) / 2; AllOk(n) <==> AllOk(a) && AllOk(n - 1 - a)
    ensures var a := (n - 1) / 2; AllButLeftOk(n) <==> AllButLeftOk(a) && AllOk(n - 1 - a)
  {
    var a := (n - 1) / 2;
    var b := n - 1 - a;
    forall r | 0 <= r <= a
      ensures GapOk(n, r) <==> GapOk(a, r)
    {
      Halves(n, r);
    }
    forall r | 0 <= r <= b
      ensures GapOk(n, r + a + 1) <==> GapOk(b, r)
    {
      Halves(n, r + a + 1);
    }
    assert AllOk(b) ==> forall r :: a < r <= n ==> GapOk(n, r) by {
      forall r | AllOk(b) && a < r <= n
        ensures GapOk(n, r)
      {
        assert GapOk(b, r - a - 1) && GapOk(n, (r - a - 1) + a + 1);
      }
    }
  }

  lemma {:induction false} AllOkIff(n: nat)
    ensures AllOk(n) <==> PowerOfTwo(n + 1) && n >= 1
    decreases n
  {
    if n == 0 { assert !GapOk(0, 0); }
    if n >= 2 {
      var a := (n - 1) / 2;
      AllOkHalves(n);
      AllOkIff(a);
      AllOkIff(n - 1 - a);
    }
  }

  lemma {:induction false} AllButLeftOkIff(n: nat)
    requires n >= 1
    ensures AllButLeftOk(n) <==> PowerOfTwo(n + 1) || PowerOfTwo(n + 2)
    decreases n
  {
    if n == 1 { assert PowerOfTwo(2); }
    else if n == 2 {
      assert GapOk(2, 1) && GapOk(2, 2) && PowerOfTwo(4);
    } else {
      var a := (n - 1) / 2;
      AllOkHalves(n);
      AllButLeftOkIff(a);
      AllOkIff(a);
      AllOkIff(n - 1 - a);
    }
  }

  /** The gaps of a page lie above its first and below its last record. */
  ghost predicate GapsOk(n: nat) {
    forall r :: 1 <= r < n ==> GapOk(n, r)
  }

  /** Every gap of a page of n records is reported absent if and only if n + 1 or n + 2 is a power
      of two. */
  lemma GapsOkIff(n: nat)
    requires n >= 1
    ensures GapsOk(n) <==> PowerOfTwo(n + 1) || PowerOfTwo(n + 2)
  {
    RightEdgeOk(n);
    AllButLeftOkIff(n);
    if GapsOk(n) {
      forall r | 1 <= r <= n
        ensures GapOk(n, r)
      {
      }
    }
    if AllButLeftOk(n) {
      forall r | 1 <= r < n
        ensures GapOk(n, r)
      {
      }
    }
  }

  /** The shortest page with a gap that is never reported: four records, around the middle. */
  lemma FourRecordsLoop<T>(d: T, k: nat)
    ensures var c := [Rec(true, 1, d), Rec(true, 5, d), Rec(true, 9, d), Rec(true, 12, d)];
      Gap(c, 7) && After(c, 7, k).beg != After(c, 7, k).end
  {
    var c := [Rec(true, 1, d), Rec(true, 5, d), Rec(true, 9, d), Rec(true, 12, d)];
    assert c[1].idx == 5 && c[2].idx == 9 && ChunkSorted(c);
    assert Rank(c, 7) == 2;
    GapLoops(c, 7, k);
  }
}
