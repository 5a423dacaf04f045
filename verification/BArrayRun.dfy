/**
 Whole runs of a paged array: whatever the page and cache capacities, and whatever pages were
 evicted and mapped again in between, the array answers like a map.
 */
module BArrayRun {
  import opened Status
  import opened BArrayPages
  import opened BArrayProbe
  import opened BArray
  import MapCache

  datatype Op<T> = Put(idx: nat, data: T) | Get(idx: nat) | Drop(idx: nat)

  /** The indexes inserted so far. */
  function PutBefore<T>(ops: seq<Op<T>>): set<nat> {
    set i | 0 <= i < |ops| && ops[i].Put? :: ops[i].idx
  }

  /** Inserts come with increasing indexes that fit the 31-bit field, and only indexes inserted
      before are searched for or deleted. */
  predicate Legal<T>(ops: seq<Op<T>>) {
    ops == [] ||
    (var n := |ops| - 1;
     && Legal(ops[..n])
     && (ops[n].Put? ==> ops[n].idx < 0x8000_0000 && forall k :: k in PutBefore(ops[..n]) ==> k < ops[n].idx)
     && (!ops[n].Put? ==> ops[n].idx in PutBefore(ops[..n])))
  }

  /** The same run on a map. */
  function MapAfter<T>(ops: seq<Op<T>>): map<nat, T> {
    if ops == [] then map[] else
    var m, op := MapAfter(ops[..|ops| - 1]), ops[|ops| - 1];
    match op
    case Put(idx, data) => m[idx := data]
    case Get(_) => m
    case Drop(idx) => m - {idx}
  }

  function Answers<T>(ops: seq<Op<T>>): seq<Option<T>> {
    if ops == [] then [] else
    var m, given, op := MapAfter(ops[..|ops| - 1]), Answers(ops[..|ops| - 1]), ops[|ops| - 1];
    if op.Get? then given + [if op.idx in m then Some(m[op.idx]) else None] else given
  }

  /** The array holds exactly the map, and has a record for exactly the indexes inserted. */
  ghost predicate Agrees<T(!new)>(cs: Chunks<T>, ops: seq<Op<T>>) {
    && Sorted(cs)
    && (forall k, v :: Maps(cs, k, v) <==> k in MapAfter(ops) && MapAfter(ops)[k] == v)
    && (forall k :: Written(cs, k) <==> k in PutBefore(ops))
  }

  lemma AppendWritten<T>(cs: Chunks<T>, cap: nat, r: Rec<T>, k: nat)
    ensures Written(Append(cs, cap, r), k) <==> Written(cs, k) || k == r.idx
  {
    var cs', n := Append(cs, cap, r), |cs|;
    if i: nat, j: nat :| At(cs, i, j, k) { assert At(cs', i, j, k); }
    if i: nat, j: nat :| At(cs', i, j, k) {
      assert (i < n && j < |cs[i]| && At(cs, i, j, k)) || cs'[i][j] == r;
    }
    assert At(cs', if NeedsPage(cs, cap) then n else n - 1, if NeedsPage(cs, cap) then 0 else |cs[n - 1]|, r.idx);
  }

  /** An index with a record can be searched for. */
  lemma WrittenSearchable<T>(cs: Chunks<T>, idx: nat)
    requires Sorted(cs) && Written(cs, idx)
    ensures Searchable(cs, idx)
  {
    var i: nat, j: nat :| At(cs, i, j, idx);
    WithinEnds(cs, i, j);
    FirstPageCovers(cs, idx, i);
    NotBehindEnd(cs, i, j);
    StoredIsFindable(cs[i], j);
  }

  lemma NotBehindEnd<T>(cs: Chunks<T>, i: nat, j: nat)
    requires Sorted(cs) && i < |cs| && j < |cs[i]|
    ensures cs[i][j].idx <= Last(cs[|cs| - 1])
  {
    var n := |cs| - 1;
    if i < n { Across(cs, i, j, n, |cs[n]| - 1); } else { WithinEnds(cs, i, j); }
  }

  lemma StoredIsFindable<T>(c: seq<Rec<T>>, j: nat)
    requires ChunkSorted(c) && j < |c|
    ensures Findable(c, c[j].idx)
  {
    assert InChunk(c, c[j].idx);
  }

  /** The last record has the largest index. */
  lemma LastIsLargest<T>(cs: Chunks<T>, idx: nat)
    requires Sorted(cs) && |cs| > 0 && forall k: nat :: Written(cs, k) ==> k < idx
    ensures Last(cs[|cs| - 1]) < idx
  {
    var n := |cs| - 1;
    assert At(cs, n, |cs[n]| - 1, Last(cs[n]));
    assert Written(cs, Last(cs[n]));
  }

  lemma PutStep<T(!new)>(cs: Chunks<T>, cap: nat, ops: seq<Op<T>>, op: Op<T>)
    requires Agrees(cs, ops) && Legal(ops + [op]) && op.Put? && cap >= 1
    ensures Accepts(cs, cap, op.idx) && Agrees(Append(cs, cap, Rec(true, op.idx, op.data)), ops + [op])
  {
    assert (ops + [op])[..|ops|] == ops;
    if |cs| > 0 { LastIsLargest(cs, op.idx); }
    AppendSortedIff(cs, cap, Rec(true, op.idx, op.data));
    var cs' := Append(cs, cap, Rec(true, op.idx, op.data));
    forall k, v
      ensures Maps(cs', k, v) <==> k in MapAfter(ops + [op]) && MapAfter(ops + [op])[k] == v
    {
      AppendMaps(cs, cap, op.idx, op.data, k, v);
      if Maps(cs, k, v) { MapsIsWritten(cs, k, v); }
    }
    forall k
      ensures Written(cs', k) <==> k in PutBefore(ops + [op])
    {
      AppendWritten(cs, cap, Rec(true, op.idx, op.data), k);
      PutBeforeStep(ops, op, k);
    }
  }

  lemma MapsIsWritten<T>(cs: Chunks<T>, k: nat, v: T)
    requires Maps(cs, k, v)
    ensures Written(cs, k)
  {
    var i: nat, j: nat :| MapsAt(cs, i, j, k, v);
    assert At(cs, i, j, k);
  }

  lemma PutBeforeStep<T>(ops: seq<Op<T>>, op: Op<T>, k: nat)
    ensures k in PutBefore(ops + [op]) <==> k in PutBefore(ops) || (op.Put? && k == op.idx)
  {
    var ops' := ops + [op];
    if k in PutBefore(ops) {
      var i :| 0 <= i < |ops| && ops[i].Put? && ops[i].idx == k;
      assert ops'[i].Put? && ops'[i].idx == k;
    }
    if op.Put? && k == op.idx { assert ops'[|ops|].Put? && ops'[|ops|].idx == k; }
    if k in PutBefore(ops') {
      var i :| 0 <= i < |ops'| && ops'[i].Put? && ops'[i].idx == k;
      assert i < |ops| ==> ops[i] == ops'[i];
    }
  }

  lemma DropStep<T(!new)>(cs: Chunks<T>, cs': Chunks<T>, ops: seq<Op<T>>, op: Op<T>)
    requires Agrees(cs, ops) && op.Drop? && LosesOnly(cs, cs', op.idx)
    ensures Agrees(cs', ops + [op])
  {
    assert (ops + [op])[..|ops|] == ops;
    forall k
      ensures k in PutBefore(ops + [op]) <==> k in PutBefore(ops)
    {
      PutBeforeStep(ops, op, k);
    }
  }

  lemma GetStep<T(!new)>(cs: Chunks<T>, ops: seq<Op<T>>, op: Op<T>, found: Option<T>)
    requires Agrees(cs, ops) && op.Get? && forall v :: found == Some(v) <==> Maps(cs, op.idx, v)
    ensures Agrees(cs, ops + [op]) && Answers(ops + [op]) == Answers(ops) + [found]
  {
    assert (ops + [op])[..|ops|] == ops;
    var m := MapAfter(ops);
    if op.idx in m { assert Maps(cs, op.idx, m[op.idx]); }
    forall k
      ensures k in PutBefore(ops + [op]) <==> k in PutBefore(ops)
    {
      PutBeforeStep(ops, op, k);
    }
  }

  lemma PutIsSmall<T>(ops: seq<Op<T>>, k: nat)
    requires Legal(ops) && k in PutBefore(ops)
    ensures k < 0x8000_0000
  {
    var n := |ops| - 1;
    assert ops == ops[..n] + [ops[n]];
    PutBeforeStep(ops[..n], ops[n], k);
    if k in PutBefore(ops[..n]) { PutIsSmall(ops[..n], k); }
  }

  // ---- on which page a record is, and which pages get mapped

  function PutCount<T>(ops: seq<Op<T>>): nat {
    if ops == [] then 0 else PutCount(ops[..|ops| - 1]) + if ops[|ops| - 1].Put? then 1 else 0
  }

  /** How many inserts came before the last one of `idx`. */
  function PutNo<T>(ops: seq<Op<T>>, idx: nat): nat {
    if ops == [] then 0 else
    var n := |ops| - 1;
    if ops[n].Put? && ops[n].idx == idx then PutCount(ops[..n]) else PutNo(ops[..n], idx)
  }

  /** The page of the record for an index: records fill one page after the other. */
  function PageOf<T>(ops: seq<Op<T>>, cap: nat, idx: nat): nat
    requires cap > 0
  {
    PutNo(ops, idx) / cap
  }

  /** The queue of mapped pages after a run that finds the queue `ps` behind the operations `before`:
      every operation asks for the page of its index. */
  function MappedPages<T>(ps: seq<nat>, max: nat, cap: nat, before: seq<Op<T>>, ops: seq<Op<T>>): seq<nat>
    requires cap > 0
    decreases |ops|
  {
    if ops == [] then ps else
    var n := |ops| - 1;
    Touched(MappedPages(ps, max, cap, before, ops[..n]), max, PageOf(before + ops, cap, ops[n].idx))
  }

  /** Never more pages are mapped than the cache has entries, none twice, and always the page that the
      latest operation asked for. */
  lemma {:induction false} MappedIsQueue<T>(max: nat, cap: nat, before: seq<Op<T>>, ops: seq<Op<T>>)
    requires cap > 0 && max > 0
    ensures var q := MappedPages([], max, cap, before, ops);
      && |q| <= max && (forall i, j :: 0 <= i < j < |q| ==> q[i] != q[j])
      && (ops != [] ==> PageOf(before + ops, cap, ops[|ops| - 1].idx) in q)
    decreases |ops|
  {
    if ops != [] {
      var n := |ops| - 1;
      MappedIsQueue(max, cap, before, ops[..n]);
      TouchedIsQueue(MappedPages([], max, cap, before, ops[..n]), max, PageOf(before + ops, cap, ops[n].idx));
    }
  }

  lemma TouchedIsQueue(ps: seq<nat>, max: nat, p: nat)
    requires 0 < max && |ps| <= max && forall i, j :: 0 <= i < j < |ps| ==> ps[i] != ps[j]
    ensures var q := Touched(ps, max, p);
      |q| <= max && p in q && forall i, j :: 0 <= i < j < |q| ==> q[i] != q[j]
  {
    var q := Touched(ps, max, p);
    if p !in ps { assert q[|q| - 1] == p; }
  }

  function RecordNo(cap: nat, i: nat, j: nat): nat {
    i * cap + j
  }

  function Records<T>(cs: Chunks<T>, cap: nat): nat {
    if |cs| == 0 then 0 else RecordNo(cap, |cs| - 1, |cs[|cs| - 1]|)
  }

  ghost predicate Full<T>(cs: Chunks<T>, cap: nat) {
    && (forall i :: 0 <= i < |cs| - 1 ==> |cs[i]| == cap)
    && (|cs| > 0 ==> 0 < |cs[|cs| - 1]| <= cap)
  }

  /** The records are those of the inserts, in their order, page after page. */
  ghost predicate Filed<T>(cs: Chunks<T>, cap: nat, ops: seq<Op<T>>) {
    && Full(cs, cap) && Records(cs, cap) == PutCount(ops)
    && forall i: nat, j: nat :: i < |cs| && j < |cs[i]| ==> PutNo(ops, cs[i][j].idx) == RecordNo(cap, i, j)
  }

  lemma PageOfRecord(cap: nat, i: nat, j: nat)
    requires j < cap
    ensures RecordNo(cap, i, j) / cap == i
  {
    var q := RecordNo(cap, i, j) / cap;
    if q < i { TimesMono(q + 1, i, cap); }
    if q > i { TimesMono(i + 1, q, cap); }
  }

  lemma TimesMono(a: nat, b: nat, c: nat)
    requires a <= b
    ensures a * c <= b * c
  {
  }

  /** While the inserts fit the file, a page that is needed can be added. */
  lemma RoomForPage<T>(cs: Chunks<T>, cap: nat, max: nat, ops: seq<Op<T>>)
    requires Filed(cs, cap, ops) && PutCount(ops) < cap * max && NeedsPage(cs, cap)
    ensures |cs| < max
  {
    if |cs| > 0 {
      assert Records(cs, cap) == |cs| * cap;
      if |cs| >= max { TimesMono(max, |cs|, cap); }
    }
  }

  lemma PutCountStep<T>(ops: seq<Op<T>>, op: Op<T>, idx: nat)
    ensures PutCount(ops + [op]) == PutCount(ops) + if op.Put? then 1 else 0
    ensures PutNo(ops + [op], idx) == if op.Put? && op.idx == idx then PutCount(ops) else PutNo(ops, idx)
  {
    assert (ops + [op])[..|ops|] == ops;
  }

  /** Where a record that is appended goes. */
  lemma AppendFull<T>(cs: Chunks<T>, cap: nat, r: Rec<T>, cs': Chunks<T>)
    requires Full(cs, cap) && cap >= 1 && cs' == Append(cs, cap, r)
    ensures Full(cs', cap) && |cs'| > 0 && Records(cs', cap) == Records(cs, cap) + 1
    ensures RecordNo(cap, |cs'| - 1, |cs'[|cs'| - 1]| - 1) == Records(cs, cap)
    ensures forall i, j :: 0 <= i < |cs'| && 0 <= j < |cs'[i]| ==>
      if i == |cs'| - 1 && j == |cs'[i]| - 1 then cs'[i][j] == r
      else i < |cs| && j < |cs[i]| && cs'[i][j] == cs[i][j]
  {
    if NeedsPage(cs, cap) && |cs| > 0 {
      assert Records(cs, cap) == |cs| * cap;
    }
  }

  lemma FiledPut<T(!new)>(cs: Chunks<T>, cap: nat, ops: seq<Op<T>>, op: Op<T>, cs': Chunks<T>)
    requires Agrees(cs, ops) && Filed(cs, cap, ops) && Legal(ops + [op]) && op.Put? && cap >= 1
    requires cs' == Append(cs, cap, Rec(true, op.idx, op.data))
    ensures Filed(cs', cap, ops + [op]) && PageOf(ops + [op], cap, op.idx) == |cs'| - 1
  {
    AppendFull(cs, cap, Rec(true, op.idx, op.data), cs');
    PutCountStep(ops, op, op.idx);
    PageOfRecord(cap, |cs'| - 1, |cs'[|cs'| - 1]| - 1);
    forall i: nat, j: nat | i < |cs'| && j < |cs'[i]|
      ensures PutNo(ops + [op], cs'[i][j].idx) == RecordNo(cap, i, j)
    {
      PutCountStep(ops, op, cs'[i][j].idx);
      if !(i == |cs'| - 1 && j == |cs'[i]| - 1) { OtherIndex(cs, ops, op, i, j); }
    }
  }

  /** An insert takes an index no record has. */
  lemma OtherIndex<T(!new)>(cs: Chunks<T>, ops: seq<Op<T>>, op: Op<T>, i: nat, j: nat)
    requires Agrees(cs, ops) && Legal(ops + [op]) && op.Put? && i < |cs| && j < |cs[i]|
    ensures cs[i][j].idx != op.idx
  {
    assert (ops + [op])[..|ops|] == ops;
    assert At(cs, i, j, cs[i][j].idx) && Written(cs, cs[i][j].idx);
  }

  lemma FiledSame<T>(cs: Chunks<T>, cs': Chunks<T>, cap: nat, ops: seq<Op<T>>, op: Op<T>)
    requires Filed(cs, cap, ops) && SameShape(cs, cs') && !op.Put?
    ensures Filed(cs', cap, ops + [op])
  {
    PutCountStep(ops, op, op.idx);
    forall i: nat, j: nat | i < |cs'| && j < |cs'[i]|
      ensures PutNo(ops + [op], cs'[i][j].idx) == RecordNo(cap, i, j)
    {
      PutCountStep(ops, op, cs'[i][j].idx);
      assert cs'[i][j].idx == cs[i][j].idx;
    }
  }

  lemma SameAsItself<T>(cs: Chunks<T>)
    ensures SameShape(cs, cs)
  {
  }

  /** A search for an index with a record asks for the page of that record. */
  lemma AsksForPageOf<T>(cs: Chunks<T>, cap: nat, ops: seq<Op<T>>, op: Op<T>, ps: seq<nat>, max: nat)
    requires Sorted(cs) && Filed(cs, cap, ops) && !op.Put? && Written(cs, op.idx) && cap >= 1
    ensures TouchedBySearch(ps, max, cs, op.idx) == Touched(ps, max, PageOf(ops + [op], cap, op.idx))
  {
    var i: nat, j: nat :| At(cs, i, j, op.idx);
    WithinEnds(cs, i, j);
    FirstPageCovers(cs, op.idx, i);
    PutCountStep(ops, op, op.idx);
    RecordOnPage(cs, cap, ops, i, j);
  }

  lemma RecordOnPage<T>(cs: Chunks<T>, cap: nat, ops: seq<Op<T>>, i: nat, j: nat)
    requires Filed(cs, cap, ops) && i < |cs| && j < |cs[i]| && cap >= 1
    ensures PageOf(ops, cap, cs[i][j].idx) == i
  {
    PageOfRecord(cap, i, j);
  }

  /** An insert of a run. */
  method PutOne<T(!new)>(b: BArray<T>, idx: nat, data: T)
    requires b.Valid() && NoneEmpty(b.Chunks()) && Accepts(b.Chunks(), b.recsPerPage, idx) && idx < 0x8000_0000
    requires NeedsPage(b.Chunks(), b.recsPerPage) ==> |b.pages| < b.maxPages
    modifies b`file, b`pages, b.cache, b.cache.slots, b.pages, b.file
    ensures b.Valid() && b.Chunks() == Append(old(b.Chunks()), b.recsPerPage, Rec(true, idx, data))
      && |b.Chunks()| == |b.pages|
    ensures b.Cached() == Touched(old(b.Cached()), b.cache.slots.Length, |b.pages| - 1)
    ensures old(b.pages) <= b.pages && forall i :: |old(b.pages)| <= i < |b.pages| ==> fresh(b.pages[i])
    ensures old(b.file) <= b.file && forall i :: |old(b.file)| <= i < |b.file| ==> fresh(b.file[i])
  {
    var ret := b.Insert(idx, data);
  }

  lemma PutIsTaken<T(!new)>(cs: Chunks<T>, cap: nat, max: nat, ops: seq<Op<T>>, op: Op<T>)
    requires Agrees(cs, ops) && Filed(cs, cap, ops) && Legal(ops + [op]) && op.Put? && cap >= 1
    requires PutCount(ops) < cap * max
    ensures Accepts(cs, cap, op.idx) && op.idx < 0x8000_0000 && (NeedsPage(cs, cap) ==> |cs| < max)
  {
    PutStep(cs, cap, ops, op);
    if NeedsPage(cs, cap) { RoomForPage(cs, cap, max, ops); }
    assert (ops + [op])[..|ops|] == ops;
  }

  lemma PutDone<T(!new)>(cs: Chunks<T>, cap: nat, ops: seq<Op<T>>, op: Op<T>, cs': Chunks<T>)
    requires Agrees(cs, ops) && Filed(cs, cap, ops) && Legal(ops + [op]) && op.Put? && cap >= 1
    requires cs' == Append(cs, cap, Rec(true, op.idx, op.data))
    ensures Agrees(cs', ops + [op]) && Filed(cs', cap, ops + [op])
    ensures |cs'| > 0 && PageOf(ops + [op], cap, op.idx) == |cs'| - 1 && Answers(ops + [op]) == Answers(ops)
  {
    PutStep(cs, cap, ops, op);
    FiledPut(cs, cap, ops, op, cs');
    assert (ops + [op])[..|ops|] == ops;
  }

  /** A search or a deletion of a run. */
  method OtherOne<T(!new)>(b: BArray<T>, ghost ops: seq<Op<T>>, op: Op<T>) returns (answer: Option<T>)
    requires b.Valid() && Agrees(b.Chunks(), ops) && Filed(b.Chunks(), b.recsPerPage, ops)
    requires Legal(ops) && Legal(ops + [op]) && !op.Put?
    modifies b.cache, b.cache.slots, b.pages, b.file
    ensures b.Valid() && Agrees(b.Chunks(), ops + [op]) && Filed(b.Chunks(), b.recsPerPage, ops + [op])
    ensures Answers(ops + [op]) == if op.Get? then Answers(ops) + [answer] else Answers(ops)
    ensures b.Cached() == Touched(old(b.Cached()), b.cache.slots.Length, PageOf(ops + [op], b.recsPerPage, op.idx))
  {
    answer := None;
    ghost var cs := b.Chunks();
    OtherLegal(cs, ops, op);
    AsksForPageOf(cs, b.recsPerPage, ops, op, b.Cached(), b.cache.slots.Length);
    if op.Get? {
      answer := b.Search(op.idx);
      GetStep(cs, ops, op, answer);
      SameAsItself(cs);
    } else {
      var ret := b.Delete(op.idx);
      DropStep(cs, b.Chunks(), ops, op);
    }
    FiledSame(cs, b.Chunks(), b.recsPerPage, ops, op);
  }

  lemma OtherLegal<T(!new)>(cs: Chunks<T>, ops: seq<Op<T>>, op: Op<T>)
    requires Agrees(cs, ops) && Legal(ops) && Legal(ops + [op]) && !op.Put?
    ensures Written(cs, op.idx) && Searchable(cs, op.idx) && op.idx < 0x8000_0000
    ensures op.Drop? ==> Answers(ops + [op]) == Answers(ops)
  {
    assert (ops + [op])[..|ops|] == ops;
    WrittenSearchable(cs, op.idx);
    PutIsSmall(ops, op.idx);
  }

  /** An insert whose outcome is told beforehand. */
  method PutTo<T(!new)>(b: BArray<T>, idx: nat, data: T, ghost cs: Chunks<T>, ghost ps: seq<nat>)
    requires b.Valid() && NoneEmpty(b.Chunks()) && Accepts(b.Chunks(), b.recsPerPage, idx) && idx < 0x8000_0000
    requires NeedsPage(b.Chunks(), b.recsPerPage) ==> |b.pages| < b.maxPages
    requires cs == Append(b.Chunks(), b.recsPerPage, Rec(true, idx, data))
    requires |cs| > 0 && ps == Touched(b.Cached(), b.cache.slots.Length, |cs| - 1)
    modifies b`file, b`pages, b.cache, b.cache.slots, b.pages, b.file
    ensures b.Valid() && b.Chunks() == cs && b.Cached() == ps
    ensures old(b.pages) <= b.pages && forall i :: |old(b.pages)| <= i < |b.pages| ==> fresh(b.pages[i])
    ensures old(b.file) <= b.file && forall i :: |old(b.file)| <= i < |b.file| ==> fresh(b.file[i])
  {
    PutOne(b, idx, data);
  }

  /** One operation of a run. */
  method Step<T(!new)>(b: BArray<T>, ghost ops: seq<Op<T>>, op: Op<T>) returns (answer: Option<T>)
    requires b.Valid() && Agrees(b.Chunks(), ops) && Filed(b.Chunks(), b.recsPerPage, ops)
    requires Legal(ops) && Legal(ops + [op]) && PutCount(ops + [op]) <= b.recsPerPage * b.maxPages
    modifies b`file, b`pages, b.cache, b.cache.slots, b.pages, b.file
    ensures b.Valid() && Agrees(b.Chunks(), ops + [op]) && Filed(b.Chunks(), b.recsPerPage, ops + [op])
    ensures b.Cached() == Touched(old(b.Cached()), b.cache.slots.Length, PageOf(ops + [op], b.recsPerPage, op.idx))
    ensures old(b.pages) <= b.pages && forall i :: |old(b.pages)| <= i < |b.pages| ==> fresh(b.pages[i])
    ensures old(b.file) <= b.file && forall i :: |old(b.file)| <= i < |b.file| ==> fresh(b.file[i])
    ensures Answers(ops + [op]) == if op.Get? then Answers(ops) + [answer] else Answers(ops)
  {
    answer := None;
    PutCountStep(ops, op, op.idx);
    if op.Put? {
      b.LastChunk();
      PutIsTaken(b.Chunks(), b.recsPerPage, b.maxPages, ops, op);
      ghost var cs := Append(b.Chunks(), b.recsPerPage, Rec(true, op.idx, op.data));
      PutDone(b.Chunks(), b.recsPerPage, ops, op, cs);
      PutTo(b, op.idx, op.data, cs, Touched(b.Cached(), b.cache.slots.Length, |cs| - 1));
    } else {
      answer := OtherOne(b, ops, op);
    }
  }

  /** The array is where the operations `before` and then `ops` lead, `answers` given by the latter
      and the pages mapped being `mapped`, as they follow from those before, `ps`. */
  ghost predicate Reached<T(!new)>(cs: Chunks<T>, mapped: seq<nat>, cap: nat, ps: seq<nat>, max: nat,
                                   before: seq<Op<T>>, ops: seq<Op<T>>, answers: seq<Option<T>>)
    requires cap > 0
  {
    && Agrees(cs, before + ops) && Filed(cs, cap, before + ops)
    && Answers(before + ops) == Answers(before) + answers
    && mapped == MappedPages(ps, max, cap, before, ops)
  }

  /** One operation further in a run. */
  method StepOn<T(!new)>(b: BArray<T>, ghost ps: seq<nat>, ghost before: seq<Op<T>>, ops: seq<Op<T>>, i: nat,
                  given: seq<Option<T>>)
    returns (answers: seq<Option<T>>)
    requires b.Valid() && i < |ops| && Legal(before + ops) && PutCount(before + ops) <= b.recsPerPage * b.maxPages
    requires Reached(b.Chunks(), b.Cached(), b.recsPerPage, ps, b.cache.slots.Length, before, ops[..i], given)
    modifies b`file, b`pages, b.cache, b.cache.slots, b.pages, b.file
    ensures b.Valid()
    ensures Reached(b.Chunks(), b.Cached(), b.recsPerPage, ps, b.cache.slots.Length, before, ops[..i + 1], answers)
    ensures old(b.pages) <= b.pages && forall i :: |old(b.pages)| <= i < |b.pages| ==> fresh(b.pages[i])
    ensures old(b.file) <= b.file && forall i :: |old(b.file)| <= i < |b.file| ==> fresh(b.file[i])
  {
    ghost var done, next := before + ops[..i], before + ops[..i] + [ops[i]];
    OneFurther(before, ops, i, done, next);
    FitsUpTo(before, ops, i + 1, b.recsPerPage * b.maxPages);
    MapsOneFurther(ps, b.cache.slots.Length, b.recsPerPage, before, ops, i, next);
    var answer := Step(b, done, ops[i]);
    answers := if ops[i].Get? then given + [answer] else given;
    GivenSoFar(Answers(before), given, answer);
    ReachedNext(b.Chunks(), b.Cached(), b.recsPerPage, ps, b.cache.slots.Length, before, ops, i, next, answers);
  }

  lemma GivenSoFar<T>(a: seq<T>, b: seq<T>, c: T)
    ensures a + b + [c] == a + (b + [c])
  {
  }

  lemma ReachedNext<T(!new)>(cs: Chunks<T>, mapped: seq<nat>, cap: nat, ps: seq<nat>, max: nat,
                             before: seq<Op<T>>, ops: seq<Op<T>>, i: nat, next: seq<Op<T>>, answers: seq<Option<T>>)
    requires cap > 0 && i < |ops| && next == before + ops[..i + 1]
    requires Agrees(cs, next) && Filed(cs, cap, next) && Answers(next) == Answers(before) + answers
    requires mapped == MappedPages(ps, max, cap, before, ops[..i + 1])
    ensures Reached(cs, mapped, cap, ps, max, before, ops[..i + 1], answers)
  {
  }

  /** More operations on an array that has seen some. */
  method Continue<T(!new)>(b: BArray<T>, ghost before: seq<Op<T>>, ops: seq<Op<T>>) returns (answers: seq<Option<T>>)
    requires b.Valid() && Agrees(b.Chunks(), before) && Filed(b.Chunks(), b.recsPerPage, before)
    requires Legal(before + ops) && PutCount(before + ops) <= b.recsPerPage * b.maxPages
    modifies b`file, b`pages, b.cache, b.cache.slots, b.pages, b.file
    ensures b.Valid()
    ensures Reached(b.Chunks(), b.Cached(), b.recsPerPage, old(b.Cached()), b.cache.slots.Length, before, ops, answers)
    ensures old(b.file) <= b.file && forall k :: |old(b.file)| <= k < |b.file| ==> fresh(b.file[k])
  {
    NothingDone(b.Chunks(), b.Cached(), b.recsPerPage, b.cache.slots.Length, before, ops[..0]);
    answers := ContinueFrom(b, b.Cached(), before, ops, 0, []);
    assert ops[..|ops|] == ops;
  }

  /** The operations from the i-th on. */
  method ContinueFrom<T(!new)>(b: BArray<T>, ghost ps: seq<nat>, ghost before: seq<Op<T>>, ops: seq<Op<T>>, i: nat,
                               given: seq<Option<T>>) returns (answers: seq<Option<T>>)
    requires b.Valid() && i <= |ops| && Legal(before + ops) && PutCount(before + ops) <= b.recsPerPage * b.maxPages
    requires Reached(b.Chunks(), b.Cached(), b.recsPerPage, ps, b.cache.slots.Length, before, ops[..i], given)
    modifies b`file, b`pages, b.cache, b.cache.slots, b.pages, b.file
    ensures b.Valid()
    ensures Reached(b.Chunks(), b.Cached(), b.recsPerPage, ps, b.cache.slots.Length, before, ops[..|ops|], answers)
    ensures old(b.file) <= b.file && forall k :: |old(b.file)| <= k < |b.file| ==> fresh(b.file[k])
    decreases |ops| - i
  {
    answers := given;
    if i < |ops| {
      answers := StepOn(b, ps, before, ops, i, given);
      answers := ContinueFrom(b, ps, before, ops, i + 1, answers);
    }
  }

  lemma NothingDone<T(!new)>(cs: Chunks<T>, ps: seq<nat>, cap: nat, max: nat, before: seq<Op<T>>, none: seq<Op<T>>)
    requires Agrees(cs, before) && Filed(cs, cap, before) && none == [] && cap > 0
    ensures Reached(cs, ps, cap, ps, max, before, none, [])
  {
    assert before + none == before;
  }

  lemma MapsOneFurther<T>(ps: seq<nat>, max: nat, cap: nat, before: seq<Op<T>>, ops: seq<Op<T>>, i: nat,
                          next: seq<Op<T>>)
    requires cap > 0 && i < |ops| && next == before + ops[..i] + [ops[i]]
    ensures MappedPages(ps, max, cap, before, ops[..i + 1])
      == Touched(MappedPages(ps, max, cap, before, ops[..i]), max, PageOf(next, cap, ops[i].idx))
  {
    var sofar := ops[..i + 1];
    assert sofar[..i] == ops[..i] && before + sofar == next;
  }

  lemma OneFurther<T>(before: seq<Op<T>>, ops: seq<Op<T>>, i: nat, done: seq<Op<T>>, next: seq<Op<T>>)
    requires Legal(before + ops) && i < |ops| && done == before + ops[..i] && next == done + [ops[i]]
    ensures Legal(done) && Legal(next) && next == before + ops[..i + 1]
  {
    LegalUpTo(before, ops, i);
    LegalUpTo(before, ops, i + 1);
    assert next == before + ops[..i + 1];
  }

  lemma FitsUpTo<T>(before: seq<Op<T>>, ops: seq<Op<T>>, i: nat, max: nat)
    requires PutCount(before + ops) <= max && i <= |ops|
    ensures PutCount(before + ops[..i]) <= max
  {
    PutCountPrefix(before + ops, |before| + i);
    assert (before + ops)[..|before| + i] == before + ops[..i];
  }

  lemma {:induction false} PutCountPrefix<T>(ops: seq<Op<T>>, i: nat)
    requires i <= |ops|
    ensures PutCount(ops[..i]) <= PutCount(ops)
  {
    if i < |ops| {
      PutCountPrefix(ops[..|ops| - 1], i);
      assert ops[..|ops| - 1][..i] == ops[..i];
    } else {
      assert ops[..i] == ops;
    }
  }

  lemma LegalUpTo<T>(before: seq<Op<T>>, ops: seq<Op<T>>, i: nat)
    requires Legal(before + ops) && i <= |ops|
    ensures Legal(before + ops[..i])
  {
    LegalPrefix(before + ops, |before| + i);
    assert (before + ops)[..|before| + i] == before + ops[..i];
  }

  /** All operations, on an empty array. */
  method Start<T(!new)>(b: BArray<T>, ops: seq<Op<T>>) returns (answers: seq<Option<T>>)
    requires b.Valid() && b.pages == [] && b.Chunks() == [] && b.Cached() == []
    requires Legal(ops) && PutCount(ops) <= b.recsPerPage * b.maxPages
    modifies b`file, b`pages, b.cache, b.cache.slots
    ensures b.Valid() && Agrees(b.Chunks(), ops) && Filed(b.Chunks(), b.recsPerPage, ops) && answers == Answers(ops)
    ensures b.Cached() == MappedPages([], b.cache.slots.Length, b.recsPerPage, [], ops)
    ensures forall k :: 0 <= k < |b.file| ==> fresh(b.file[k])
  {
    ghost var none: seq<Op<T>> := [];
    NothingYet(b.Chunks(), b.recsPerPage, none, ops);
    answers := Continue(b, none, ops);
  }

  lemma NothingYet<T(!new)>(cs: Chunks<T>, cap: nat, none: seq<Op<T>>, ops: seq<Op<T>>)
    requires cs == [] && none == []
    ensures Agrees(cs, none) && Filed(cs, cap, none) && none + ops == ops && Answers(none) == []
  {
  }

  /** Any legal run that fits the file, on an array made for it, gives the answers of the map; and the
      pages mapped in the end are the latest ones asked for, first in, first out. */
  method Run<T(!new)>(ops: seq<Op<T>>, pageSize: nat, dataSize: nat, maxCacheEntries: nat, zero: T)
    returns (answers: seq<Option<T>>, ghost mapped: seq<nat>)
    requires 1 <= pageSize && 1 <= RecsPerPage(pageSize, dataSize) <= MAX_RECS
      && 1 <= maxCacheEntries < MapCache.UINT_MAX
    requires Legal(ops) && PutCount(ops) <= RecsPerPage(pageSize, dataSize) * MaxPages(pageSize)
    ensures answers == Answers(ops)
    ensures mapped == MappedPages([], maxCacheEntries, RecsPerPage(pageSize, dataSize), [], ops)
  {
    FewPages(pageSize, dataSize);
    var b := new BArray<T>(MaxPages(pageSize), RecsPerPage(pageSize, dataSize), maxCacheEntries, zero);
    answers := Start(b, ops);
    mapped := b.Cached();
  }

  predicate NoneDropped<T>(ops: seq<Op<T>>) {
    forall i :: 0 <= i < |ops| ==> !ops[i].Drop?
  }

  lemma {:induction false} PutStays<T>(ops: seq<Op<T>>, k: nat)
    requires NoneDropped(ops) && k in PutBefore(ops)
    ensures k in MapAfter(ops)
  {
    var n := |ops| - 1;
    assert ops == ops[..n] + [ops[n]];
    PutBeforeStep(ops[..n], ops[n], k);
    if k in PutBefore(ops[..n]) { PutStays(ops[..n], k); }
  }

  /** Where nothing was deleted, every record is present. */
  lemma PresentUndropped<T(!new)>(cs: Chunks<T>, ops: seq<Op<T>>, i: nat, j: nat)
    requires Agrees(cs, ops) && NoneDropped(ops) && i < |cs| && j < |cs[i]|
    ensures cs[i][j].present
  {
    var k := cs[i][j].idx;
    assert At(cs, i, j, k) && Written(cs, k);
    PutStays(ops, k);
    var v := MapAfter(ops)[k];
    assert Maps(cs, k, v);
    var i': nat, j': nat :| MapsAt(cs, i', j', k, v);
    WrittenOnce(cs, i, j, i', j', k);
  }

  lemma AllPresentUndropped<T(!new)>(cs: Chunks<T>, ops: seq<Op<T>>)
    requires Agrees(cs, ops) && NoneDropped(ops)
    ensures forall i :: 0 <= i < |cs| ==> AllPresent(cs[i])
  {
    forall i, j | 0 <= i < |cs| && 0 <= j < |cs[i]|
      ensures cs[i][j].present
    {
      PresentUndropped(cs, ops, i, j);
    }
  }

  /** The file a run leaves. */
  method WriteFile<T(!new)>(ops: seq<Op<T>>, max: nat, cap: nat, maxCacheEntries: nat, zero: T)
    returns (answers: seq<Option<T>>, fd: seq<array<Rec<T>>>, ghost cs: Chunks<T>)
    requires 1 <= cap <= MAX_RECS && max <= 0x4000_0000 && 1 <= maxCacheEntries < MapCache.UINT_MAX
    requires Legal(ops) && PutCount(ops) <= cap * max
    ensures answers == Answers(ops) && Agrees(cs, ops) && Filed(cs, cap, ops) && FileHolds(fd, cap, cs) && |fd| <= max
    ensures (forall i, j :: 0 <= i < j < |fd| ==> fd[i] != fd[j]) && forall i :: 0 <= i < |fd| ==> fresh(fd[i])
  {
    var b := new BArray<T>(max, cap, maxCacheEntries, zero);
    answers := Start(b, ops);
    fd, cs := b.file, b.Chunks();
    FileOfRunning(b);
  }

  /** A run that closes the array in between and opens the file again, with whatever cache: as long as
      nothing was deleted before that, it gives the answers of the run that does not.  The pages
      mapped in the end are those asked for since. */
  method RunReopened<T(!new)>(before: seq<Op<T>>, ops: seq<Op<T>>, pageSize: nat, dataSize: nat,
                              maxCacheEntries: nat, maxCacheEntries': nat, zero: T)
    returns (answers: seq<Option<T>>, ghost mapped: seq<nat>)
    requires 1 <= pageSize && 1 <= RecsPerPage(pageSize, dataSize) <= MAX_RECS
    requires 1 <= maxCacheEntries < MapCache.UINT_MAX && 1 <= maxCacheEntries' < MapCache.UINT_MAX
    requires Legal(before + ops) && NoneDropped(before)
    requires PutCount(before + ops) <= RecsPerPage(pageSize, dataSize) * MaxPages(pageSize)
    ensures answers == Answers(before + ops)
    ensures mapped == MappedPages([], maxCacheEntries', RecsPerPage(pageSize, dataSize), before, ops)
  {
    FewPages(pageSize, dataSize);
    LegalUpTo(before, ops, 0);
    assert before + ops[..0] == before;
    var max, cap := MaxPages(pageSize), RecsPerPage(pageSize, dataSize);
    FitsUpTo(before, ops, 0, cap * max);
    var first, fd, cs := WriteFile(before, max, cap, maxCacheEntries, zero);
    AllPresentUndropped(cs, before);
    var b := new BArray<T>.Reopen(fd, max, cap, maxCacheEntries', zero, cs);
    var second := Continue(b, before, ops);
    answers, mapped := first + second, b.Cached();
  }

  lemma {:induction false} LegalPrefix<T>(ops: seq<Op<T>>, i: nat)
    requires Legal(ops) && i <= |ops|
    ensures Legal(ops[..i])
  {
    if i < |ops| {
      LegalPrefix(ops[..|ops| - 1], i);
      assert ops[..|ops| - 1][..i] == ops[..i];
    } else {
      assert ops[..i] == ops;
    }
  }
}
