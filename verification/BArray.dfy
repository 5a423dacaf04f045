/**
 src/mmp_barray.c: the page table, the mapped pages and the file under them, changed in place.
 A page of the file is an array; a mapped page is the same array, so writing to it writes the file.
 */
module BArray {
  import opened Status
  import opened BArrayPages
  import opened BArrayProbe
  import MapCache

  /** sizeof(t_mmp_barray_rec_s): the present bit and the 31-bit index. */
  const REC_HEAD := 4

  /** A page whose data count fits the 15-bit field. */
  const MAX_RECS := 0x7FFF

  class Page<T> {
    var records: array?<Rec<T>>
    var nData: nat
    var start: nat
    var end: nat
    /** The page's index in `pages`. */
    ghost const no: nat

    /** create_page */
    constructor (ghost no: nat)
      ensures records == null && nData == 0 && start == end == INVALID_IDX && this.no == no
    {
      records, nData, start, end := null, 0, INVALID_IDX, INVALID_IDX;
      this.no := no;
    }
  }

  class BArray<T(!new)> {
    /** How many pages of this length 32-bit file offsets can address. */
    const maxPages: nat
    const recsPerPage: nat
    /** What the zero bytes of a page grown but not yet written read as. */
    const zero: T
    var file: seq<array<Rec<T>>>
    var pages: seq<Page<T>>
    const cache: MapCache.Cache

    /** mmp_barray_create on a file that is there already: the page table is rebuilt from the
        records.  `cs` is what the array that wrote the file held. */
    constructor Reopen(fd: seq<array<Rec<T>>>, maxPages: nat, recsPerPage: nat, maxCacheEntries: nat, zero: T,
                       ghost cs: Chunks<T>)
      requires 1 <= recsPerPage <= MAX_RECS && maxPages <= 0x4000_0000 && 1 <= maxCacheEntries < MapCache.UINT_MAX
      requires |fd| <= maxPages && forall i, j :: 0 <= i < j < |fd| ==> fd[i] != fd[j]
      requires FileHolds(fd, recsPerPage, cs)
      ensures file == fd && this.recsPerPage == recsPerPage && this.maxPages == maxPages && Laid() && MapOk()
        && Cached() == []
      ensures cache.slots.Length == maxCacheEntries
      ensures fresh(cache) && fresh(cache.slots) && forall i :: 0 <= i < |pages| ==> fresh(pages[i])
      ensures forall i :: 0 <= i < |cs| ==> PageRebuilt(pages[i], cs[i])
      ensures (forall i :: 0 <= i < |cs| ==> AllPresent(cs[i])) ==> Valid() && Chunks() == cs
    {
      this.maxPages, this.recsPerPage, this.zero := maxPages, recsPerPage, zero;
      file, pages := fd, [];
      cache := new MapCache.Cache(maxCacheEntries);
      new;
      pages := RebuildTable(fd, recsPerPage, cs);
      ReopenedLaid(cs);
      if forall i :: 0 <= i < |cs| ==> AllPresent(cs[i]) { ReopenedOk(cs); }
    }

    lemma ReopenedLaid(cs: Chunks<T>)
      requires 1 <= recsPerPage <= MAX_RECS && |pages| == |file| <= maxPages <= 0x4000_0000
      requires FileHolds(file, recsPerPage, cs) && forall i, j :: 0 <= i < j < |file| ==> file[i] != file[j]
      requires forall i :: 0 <= i < |pages| ==>
        pages[i].no == i && pages[i].records == null && pages[i].nData <= recsPerPage
      requires cache.Valid() && cache.Entries() == []
      ensures Laid() && MapOk() && Cached() == []
    {
      forall i | 0 <= i < |pages|
        ensures PageLaid(i) && PageMapOk(i)
      {
        assert PageHolds(file[i], recsPerPage, cs[i], i < |file| - 1);
      }
    }

    /** With no record deleted, the rebuilt table is the right one. */
    lemma ReopenedOk(cs: Chunks<T>)
      requires Laid() && MapOk() && FileHolds(file, recsPerPage, cs)
      requires forall i :: 0 <= i < |cs| ==> AllPresent(cs[i]) && PageRebuilt(pages[i], cs[i])
      ensures Valid() && Chunks() == cs
    {
      forall i | 0 <= i < |pages|
        ensures HeadOk(i) && Chunk(i) == cs[i]
      {
        assert PageLaid(i) && PageHolds(file[i], recsPerPage, cs[i], i < |file| - 1);
        assert forall j :: 0 <= j < |cs[i]| ==> cs[i][j] == file[i][j];
      }
    }

    ghost function Repr(): set<object>
      reads this
    {
      {this, cache, cache.slots} + (set p | p in pages :: p as object) + (set f | f in file :: f as object)
    }

    /** Page i of the table is about page i of the file, and no two pages share memory. */
    ghost predicate Laid()
      reads this, Repr()
    {
      && 1 <= recsPerPage <= MAX_RECS && |pages| <= maxPages <= 0x4000_0000
      && |file| == |pages|
      && (forall i :: 0 <= i < |pages| ==> PageLaid(i))
      && (forall i, j :: 0 <= i < j < |file| ==> file[i] != file[j])
    }

    ghost predicate PageLaid(i: nat)
      requires i < |pages| == |file|
      reads this, Repr()
    {
      assert pages[i] in pages;
      pages[i].no == i && file[i].Length == recsPerPage && pages[i].nData <= recsPerPage
    }

    /** The table entry of page i says what the file holds there: records first, then unused slots. */
    ghost predicate HeadOk(i: nat)
      requires Laid() && i < |pages|
      reads this, Repr()
    {
      assert PageLaid(i);
      var p, f := pages[i], file[i];
      assert p in pages && f in file;
      && (i < |pages| - 1 ==> p.nData == recsPerPage)
      && 1 <= p.nData && p.start == f[0].idx && p.end == f[p.nData - 1].idx
      && (forall j :: 0 <= j < p.nData ==> f[j].idx < 0x8000_0000)
      && (forall j :: p.nData <= j < recsPerPage ==> !f[j].present)
    }

    /** Exactly the pages with an entry in the cache are mapped, each onto its page of the file. */
    ghost predicate MapOk()
      requires |pages| == |file|
      reads this, Repr()
    {
      && cache.Valid() && MapCache.OnceEach(cache.Entries())
      && (forall i :: 0 <= i < |pages| ==> PageMapOk(i))
      && forall k :: 0 <= k < cache.n ==> cache.slots[k].pageN < |pages|
    }

    ghost predicate PageMapOk(i: nat)
      requires i < |pages| == |file| && cache.n <= cache.slots.Length
      reads this, cache, Repr()
    {
      assert pages[i] in pages;
      && (pages[i].records != null ==> pages[i].records == file[i])
      && (pages[i].records != null <==> MapCache.Has(cache.Entries(), i))
    }

    ghost predicate Valid()
      reads this, Repr()
    {
      Laid() && MapOk() && forall i :: 0 <= i < |pages| ==> HeadOk(i)
    }

    /** The records written so far. */
    ghost function Chunks(): Chunks<T>
      requires Laid()
      reads this, Repr()
    {
      seq(|pages|, i requires 0 <= i < |pages| == |file| && PageLaid(i) reads this, Repr() => Chunk(i))
    }

    ghost function Chunk(i: nat): seq<Rec<T>>
      requires i < |pages| == |file| && PageLaid(i)
      reads this, Repr()
    {
      assert pages[i] in pages && file[i] in file;
      file[i][..pages[i].nData]
    }

    /** The mapped pages, in the order in which they were mapped. */
    ghost function Cached(): seq<nat>
      requires cache.n <= cache.slots.Length
      reads this, cache, cache.slots
    {
      MapCache.PagesOf(cache.Entries())
    }

    /** mmp_barray_create on an empty file. */
    constructor (maxPages: nat, recsPerPage: nat, maxCacheEntries: nat, zero: T)
      requires 1 <= recsPerPage <= MAX_RECS && maxPages <= 0x4000_0000 && 1 <= maxCacheEntries < MapCache.UINT_MAX
      ensures Valid() && fresh(Repr()) && this.recsPerPage == recsPerPage && this.maxPages == maxPages
      ensures pages == [] && Chunks() == [] && Cached() == [] && cache.slots.Length == maxCacheEntries
    {
      this.maxPages, this.recsPerPage, this.zero := maxPages, recsPerPage, zero;
      file, pages := [], [];
      cache := new MapCache.Cache(maxCacheEntries);
      new;
    }

    /** cache_get_less_hit and cache_remove of what it returns: the oldest page leaves the cache. */
    method DropLessHit() returns (idx: nat)
      requires cache.Valid() && cache.n > 0 && MapCache.OnceEach(cache.Entries())
      modifies cache`n, cache.slots
      ensures cache.Valid() && cache.Entries() == old(cache.Entries())[1..] && MapCache.OnceEach(cache.Entries())
      ensures idx == old(cache.slots[0]).pageN
    {
      ghost var es := cache.Entries();
      assert es[0] == cache.slots[0];
      idx := cache.LessHit();
      ghost var i: nat :| MapCache.LeastHit(es, i) && idx == es[i].pageN;
      assert es[i].hitCount == 1 == es[0].hitCount;
      assert i == 0;
      MapCache.IndexInDistinct(es, 0);
      assert MapCache.Without(es, idx) == es[1..];
      MapCache.DropKeeps(es);
      cache.Remove(idx);
    }

    /** The first branch of map_page: with the cache full, the least hit page is unmapped. */
    method Evict()
      requires Laid() && MapOk() && cache.n == cache.slots.Length
      modifies cache`n, cache.slots, pages`records
      ensures Laid() && MapOk() && Chunks() == old(Chunks())
      ensures cache.Entries() == old(cache.Entries())[1..]
      ensures forall i :: 0 <= i < |pages| && old(pages[i].records) == null ==> pages[i].records == null
    {
      ghost var es := cache.Entries();
      var idx := DropLessHit();
      assert old(PageLaid(idx));
      pages[idx].records := null;
      forall j | 0 <= j < |pages|
        ensures PageLaid(j) && PageMapOk(j) && Chunk(j) == old(Chunk(j))
      {
        assert old(PageLaid(j)) && old(PageMapOk(j));
        MapCache.HasAfterDrop(es, j);
      }
      assert forall k :: 0 <= k < cache.n ==> cache.Entries()[k] == es[k + 1] && es[k + 1] == old(cache.slots[k + 1]);
    }

    /** map_page, for a page that is not mapped (both callers ask only for such pages). */
    method MapPage(pageN: nat)
      requires Laid() && MapOk() && pageN < |pages| && pages[pageN].records == null
      modifies cache`n, cache.slots, pages`records
      ensures Laid() && MapOk() && pages[pageN].records == file[pageN]
      ensures Chunks() == old(Chunks())
      ensures Cached() == MapCache.Push(old(Cached()), cache.slots.Length, pageN)
    {
      ghost var es := cache.Entries();
      assert PageMapOk(pageN);
      MapCache.HasIff(es, pageN);
      var limitOk := cache.IsLimitOk();
      var cached := cache.IsCached(pageN);
      forall j | 0 <= j < |pages|
        ensures PageLaid(j) && PageMapOk(j) && Chunk(j) == old(Chunk(j))
      {
        assert old(PageLaid(j)) && old(PageMapOk(j));
      }
      if !limitOk && !cached {
        Evict();
      }
      MapFree(pageN);
      if |es| < cache.slots.Length {
        MapCache.AdditionIsFifo(es, cache.slots.Length, pageN);
      } else {
        MapCache.EvictionIsFifo(es, 0, pageN);
        MapCache.IndexInDistinct(es, 0);
        assert MapCache.Without(es, es[0].pageN) == es[1..];
      }
    }

    /** The rest of map_page, with room in the cache. */
    method MapFree(pageN: nat)
      requires Laid() && MapOk() && pageN < |pages| && pages[pageN].records == null && cache.n < cache.slots.Length
      modifies cache`n, cache.slots, pages`records
      ensures Laid() && MapOk() && pages[pageN].records == file[pageN]
      ensures Chunks() == old(Chunks())
      ensures cache.Entries() == old(cache.Entries()) + [MapCache.Entry(pageN, 1)]
    {
      ghost var es := cache.Entries();
      assert PageMapOk(pageN);
      MapCache.HasIff(es, pageN);
      pages[pageN].records := file[pageN];
      cache.Hit(pageN);
      MapCache.AddKeeps(es, pageN);
      assert old(PageLaid(pageN));
      forall j | 0 <= j < |pages|
        ensures PageLaid(j) && PageMapOk(j) && Chunk(j) == old(Chunk(j))
      {
        assert old(PageLaid(j)) && old(PageMapOk(j));
        MapCache.HasAfterAdd(es, pageN, j);
      }
      assert forall k :: 0 <= k < |es| ==> cache.slots[k] == es[k] && es[k] == old(cache.slots[k]);
    }

    /** A page just created: no record yet. */
    ghost predicate EmptyHead(i: nat)
      requires Laid() && i < |pages|
      reads this, Repr()
    {
      assert PageLaid(i);
      var p, f := pages[i], file[i];
      assert p in pages && f in file;
      p.nData == 0 && p.start == p.end == INVALID_IDX && forall j :: 0 <= j < recsPerPage ==> !f[j].present
    }

    /** All pages but the last are full and right; the last is right, or still empty. */
    ghost predicate Growing()
      reads this, Repr()
    {
      && Laid() && MapOk() && |pages| > 0
      && (forall i :: 0 <= i < |pages| - 1 ==> HeadOk(i))
      && (HeadOk(|pages| - 1) || EmptyHead(|pages| - 1))
    }

    /** The allocation half of insert_new_page: the file grows by a page of zeroes, the table by an
        empty entry. */
    method GrowFile()
      requires Laid() && |pages| < maxPages
      modifies this`file, this`pages
      ensures Laid() && |pages| == |old(pages)| + 1 && EmptyHead(|pages| - 1)
      ensures fresh(pages[|pages| - 1]) && fresh(file[|pages| - 1])
      ensures pages[..|pages| - 1] == old(pages) && file[..|pages| - 1] == old(file)
      ensures pages[|pages| - 1].records == null && Chunks() == old(Chunks()) + [[]]
    {
      var page := new Page<T>(|pages|);
      var z := zero;
      var mem := new Rec<T>[recsPerPage](_ => Rec(false, 0, z));
      ghost var n, cs := |pages|, old(Chunks());
      pages, file := pages + [page], file + [mem];
      forall i | 0 <= i <= n
        ensures PageLaid(i) && Chunk(i) == if i < n then cs[i] else []
      {
        if i < n { assert pages[i] == old(pages[i]) && file[i] == old(file[i]) && old(PageLaid(i)); }
      }
      assert Chunks() == cs + [[]];
    }

    /** insert_new_page */
    method InsertNewPage()
      requires Valid() && |pages| < maxPages
      requires |pages| > 0 ==> pages[|pages| - 1].nData == recsPerPage
      modifies this`file, this`pages
      ensures Growing() && EmptyHead(|pages| - 1) && |pages| == |old(pages)| + 1
      ensures fresh(pages[|pages| - 1]) && fresh(file[|pages| - 1])
      ensures pages[..|pages| - 1] == old(pages) && file[..|pages| - 1] == old(file)
      ensures pages[|pages| - 1].records == null && Chunks() == old(Chunks()) + [[]] && Cached() == old(Cached())
    {
      ghost var n := |pages|;
      GrowFile();
      forall i | 0 <= i < n
        ensures HeadOk(i) && PageMapOk(i)
      {
        assert pages[i] == old(pages[i]) && file[i] == old(file[i]) && old(HeadOk(i)) && old(PageMapOk(i));
      }
      MapCache.HasIff(cache.Entries(), n);
      assert forall k :: 0 <= k < cache.n ==> cache.Entries()[k] == cache.slots[k];
      assert PageMapOk(n);
    }

    /** The record write of mmp_barray_insert, in the last page, which is mapped. */
    method WriteRecord(page: Page<T>, idx: nat, data: T)
      requires Growing() && page == pages[|pages| - 1] && idx < 0x8000_0000
      requires page.records != null && page.nData < recsPerPage
      modifies page`nData, page`start, page`end, page.records
      ensures Valid() && Chunks() == WithLast(old(Chunks()), Rec(true, idx, data))
    {
      ghost var n, cs, at := |pages| - 1, Chunks(), page.nData;
      assert PageLaid(n) && PageMapOk(n);
      assert page.records == file[n];
      PutInPage(page, idx, data);
      forall i | 0 <= i <= n
        ensures PageLaid(i) && PageMapOk(i)
      {
        assert old(PageLaid(i)) && old(PageMapOk(i));
      }
      LastHeadOk(n, at, idx, data, old(page.start), old(file[n][..]));
      forall i | 0 <= i < n
        ensures HeadOk(i) && Chunk(i) == cs[i]
      {
        assert pages[i] != page && file[i] != file[n] by { assert old(PageLaid(i)) && old(PageLaid(n)); }
        assert old(HeadOk(i));
      }
      assert Chunk(n) == cs[n] + [Rec(true, idx, data)];
      assert Chunks() == cs[n := cs[n] + [Rec(true, idx, data)]];
    }

    lemma LastHeadOk(n: nat, at: nat, idx: nat, data: T, start: nat, was: seq<Rec<T>>)
      requires Laid() && n == |pages| - 1 && at < recsPerPage == |was| && idx < 0x8000_0000
      requires pages[n].nData == at + 1 && pages[n].end == idx && file[n][..] == was[at := Rec(true, idx, data)]
      requires pages[n].start == if start == INVALID_IDX then idx else start
      requires if at == 0 then start == INVALID_IDX else start == was[0].idx < 0x8000_0000
      requires forall j :: 0 <= j < at ==> was[j].idx < 0x8000_0000
      requires forall j :: at < j < recsPerPage ==> !was[j].present
      ensures HeadOk(n)
    {
      assert PageLaid(n);
      assert forall j :: 0 <= j < recsPerPage ==> file[n][j] == file[n][..][j];
    }

    lemma ChunksNoneEmpty()
      requires Valid()
      ensures NoneEmpty(Chunks())
    {
      forall i | 0 <= i < |pages|
        ensures |Chunks()[i]| > 0
      {
        assert PageLaid(i);
        assert HeadOk(i);
        assert Chunks()[i] == Chunk(i) && |Chunk(i)| == pages[i].nData;
      }
    }

    lemma LastChunk()
      requires Valid()
      ensures |Chunks()| == |pages|
      ensures |pages| > 0 ==> HeadOk(|pages| - 1) && |Chunks()[|pages| - 1]| == pages[|pages| - 1].nData <= recsPerPage
      ensures NeedsPage(Chunks(), recsPerPage) <==> |pages| == 0 || pages[|pages| - 1].nData >= recsPerPage
    {
      if |pages| > 0 {
        var n := |pages| - 1;
        assert PageLaid(n) && HeadOk(n);
        assert Chunks()[n] == Chunk(n);
      }
    }

    /** The first test of mmp_barray_insert: a new page if there is none, or the last one is full. */
    method EnsureRoom()
      requires Valid()
      requires NeedsPage(Chunks(), recsPerPage) ==> |pages| < maxPages
      modifies this`file, this`pages
      ensures Growing() && pages[|pages| - 1].nData < recsPerPage && Cached() == old(Cached())
      ensures old(pages) <= pages && forall i :: |old(pages)| <= i < |pages| ==> fresh(pages[i])
      ensures old(file) <= file && forall i :: |old(file)| <= i < |file| ==> fresh(file[i])
      ensures if NeedsPage(old(Chunks()), recsPerPage)
        then EmptyHead(|pages| - 1) && Chunks() == old(Chunks()) + [[]]
        else HeadOk(|pages| - 1) && Chunks() == old(Chunks())
    {
      LastChunk();
      if |pages| == 0 || pages[|pages| - 1].nData >= recsPerPage {
        ghost var n := |pages|;
        InsertNewPage();
        assert pages == old(pages) + [pages[n]] && file == old(file) + [file[n]];
      }
    }

    /** A page about to be read or written is mapped first if it is not mapped. */
    method EnsureMapped(pageN: nat)
      requires Growing() && pageN < |pages|
      modifies cache`n, cache.slots, pages`records
      ensures Growing() && pages[pageN].records == file[pageN] && Chunks() == old(Chunks())
      ensures forall i :: 0 <= i < |pages| && old(HeadOk(i)) ==> HeadOk(i)
      ensures Cached() == Touched(old(Cached()), cache.slots.Length, pageN)
    {
      assert PageMapOk(pageN);
      MapCache.HasIff(cache.Entries(), pageN);
      if pages[pageN].records == null {
        MapPage(pageN);
        forall i | 0 <= i < |pages| && old(HeadOk(i))
          ensures HeadOk(i)
        {
        }
      }
    }

    lemma GrownValid()
      requires Growing() && HeadOk(|pages| - 1)
      ensures Valid()
    {
    }

    lemma LastEnd()
      requires Growing()
      ensures var page, c := pages[|pages| - 1], Chunks()[|pages| - 1];
        if HeadOk(|pages| - 1) then |c| > 0 && page.end == Last(c) < INVALID_IDX else page.end == INVALID_IDX
    {
      assert PageLaid(|pages| - 1) && Chunks()[|pages| - 1] == Chunk(|pages| - 1);
    }

    /** mmp_barray_insert */
    method Insert(idx: nat, data: T) returns (ret: Ret)
      requires Valid() && idx < 0x8000_0000
      requires NeedsPage(Chunks(), recsPerPage) ==> |pages| < maxPages
      modifies this`file, this`pages, cache, cache.slots, pages, file
      ensures Valid() && NoneEmpty(old(Chunks()))
      ensures old(pages) <= pages && forall i :: |old(pages)| <= i < |pages| ==> fresh(pages[i])
      ensures old(file) <= file && forall i :: |old(file)| <= i < |file| ==> fresh(file[i])
      ensures ret == if Accepts(old(Chunks()), recsPerPage, idx) then Ok else Params
      ensures Chunks() == if ret == Ok then Append(old(Chunks()), recsPerPage, Rec(true, idx, data)) else old(Chunks())
      ensures |Chunks()| == |pages|
      ensures Cached() == if ret == Ok then Touched(old(Cached()), cache.slots.Length, |pages| - 1) else old(Cached())
    {
      ChunksNoneEmpty();
      ghost var cs := Chunks();
      EnsureRoom();
      ret := InsertLast(idx, data, cs);
    }

    /** The rest of mmp_barray_insert, with room in the last page. */
    method InsertLast(idx: nat, data: T, ghost cs: Chunks<T>) returns (ret: Ret)
      requires Growing() && pages[|pages| - 1].nData < recsPerPage && idx < 0x8000_0000 && NoneEmpty(cs)
      requires if NeedsPage(cs, recsPerPage)
        then EmptyHead(|pages| - 1) && Chunks() == cs + [[]]
        else HeadOk(|pages| - 1) && Chunks() == cs
      modifies cache`n, cache.slots, pages[|pages| - 1], pages`records, file[|pages| - 1]
      ensures Valid() && ret == if Accepts(cs, recsPerPage, idx) then Ok else Params
      ensures Chunks() == if ret == Ok then Append(cs, recsPerPage, Rec(true, idx, data)) else cs
      ensures Cached() == if ret == Ok then Touched(old(Cached()), cache.slots.Length, |pages| - 1) else old(Cached())
    {
      var page := pages[|pages| - 1];
      LastTest(idx, data, cs);
      if !(idx > page.end || page.end == INVALID_IDX) {
        GrownValid();
        return Params;
      }
      AppendRecord(page, idx, data, Append(cs, recsPerPage, Rec(true, idx, data)));
      ret := Ok;
    }

    /** The index test of mmp_barray_insert, and what follows if it is passed. */
    lemma LastTest(idx: nat, data: T, cs: Chunks<T>)
      requires Growing() && pages[|pages| - 1].nData < recsPerPage && idx < 0x8000_0000 && NoneEmpty(cs)
      requires if NeedsPage(cs, recsPerPage)
        then EmptyHead(|pages| - 1) && Chunks() == cs + [[]]
        else HeadOk(|pages| - 1) && Chunks() == cs
      ensures var end := pages[|pages| - 1].end;
        idx > end || end == INVALID_IDX <==> Accepts(cs, recsPerPage, idx)
      ensures !Accepts(cs, recsPerPage, idx) ==> Chunks() == cs && HeadOk(|pages| - 1)
      ensures Append(cs, recsPerPage, Rec(true, idx, data)) == WithLast(Chunks(), Rec(true, idx, data))
    {
      LastEnd();
      AppendIs(cs, recsPerPage, Rec(true, idx, data), Chunks());
    }

    /** mmp_barray_insert behind its tests. */
    method AppendRecord(page: Page<T>, idx: nat, data: T, ghost cs': Chunks<T>)
      requires Growing() && page == pages[|pages| - 1] && page.nData < recsPerPage && idx < 0x8000_0000
      requires cs' == WithLast(Chunks(), Rec(true, idx, data))
      modifies cache`n, cache.slots, pages`records, page, file[|pages| - 1]
      ensures Valid() && Chunks() == cs'
      ensures Cached() == Touched(old(Cached()), cache.slots.Length, |pages| - 1)
    {
      EnsureMapped(|pages| - 1);
      WriteRecord(page, idx, data);
    }

    lemma PageEnds(i: nat)
      requires Valid() && i < |pages|
      ensures |Chunks()[i]| == pages[i].nData > 0 && pages[i].start == First(Chunks()[i])
        && pages[i].end == Last(Chunks()[i])
      ensures NoneEmpty(Chunks()) && Last(Chunks()[i]) < 0x8000_0000
    {
      ChunksNoneEmpty();
      assert PageLaid(i) && HeadOk(i) && Chunks()[i] == Chunk(i);
    }

    lemma HeadsOf()
      requires Valid()
      ensures NoneEmpty(Chunks()) && |Chunks()| == |pages| <= 0x4000_0000
      ensures forall i :: 0 <= i < |pages| ==> pages[i].start == First(Chunks()[i]) && pages[i].end == Last(Chunks()[i])
    {
      ChunksNoneEmpty();
      forall i | 0 <= i < |pages|
        ensures pages[i].start == First(Chunks()[i]) && pages[i].end == Last(Chunks()[i])
      {
        PageEnds(i);
      }
    }

    /** search_page, `mid-1` wrapping included; no answer where it reads behind the page table. */
    method SearchPage(idx: nat) returns (p: Option<nat>)
      requires Valid() && Sorted(Chunks()) && idx < MOD32
      ensures p == FoundPage(old(Chunks()), idx)
    {
      HeadsOf();
      SearchIsFound(Chunks(), idx);
      if |pages| == 0 { return Some(MapCache.UINT_MAX); }
      p := SearchHeads(pages, idx, Chunks());
    }

    /** Reading leaves everything as it was; in order, the search leaves the table exactly for an
        index behind the last page. */
    method FindPage(idx: nat) returns (p: Option<nat>)
      requires Valid() && Sorted(Chunks()) && idx < MOD32
      ensures Valid() && Chunks() == old(Chunks()) && Cached() == old(Cached())
      ensures p == FoundPage(old(Chunks()), idx)
    {
      p := SearchPage(idx);
      assert Repr() == old(Repr());
    }

    /** search_in_page: the slot of the record for `idx` in page `pageN`, mapping the page if the
        index lies between its ends. */
    method SearchInPage(idx: nat, pageN: nat) returns (slot: Option<nat>)
      requires Valid() && Sorted(Chunks()) && pageN < |pages| && Findable(Chunks()[pageN], idx)
      modifies cache`n, cache.slots, pages`records
      ensures Valid() && Chunks() == old(Chunks())
      ensures SlotOf(Chunks()[pageN], idx, slot)
      ensures slot.Some? ==> pages[pageN].records == file[pageN]
      ensures Cached() ==
        if Covers(Chunks()[pageN], idx) then Touched(old(Cached()), cache.slots.Length, pageN) else old(Cached())
    {
      var page := pages[pageN];
      PageEnds(pageN);
      if idx > page.end || idx < page.start {
        NotCovered(Chunks()[pageN], idx);
        return None;
      }
      EnsureMappedValid(pageN);
      slot := Probe(page, pageN, idx);
    }

    method EnsureMappedValid(pageN: nat)
      requires Valid() && pageN < |pages|
      modifies cache`n, cache.slots, pages`records
      ensures Valid() && pages[pageN].records == file[pageN] && Chunks() == old(Chunks())
      ensures Cached() == Touched(old(Cached()), cache.slots.Length, pageN)
    {
      assert HeadOk(|pages| - 1);
      EnsureMapped(pageN);
      forall i | 0 <= i < |pages|
        ensures HeadOk(i)
      {
        assert old(HeadOk(i));
      }
    }

    /** The loop of search_in_page, on a mapped page. */
    method Probe(page: Page<T>, pageN: nat, idx: nat) returns (slot: Option<nat>)
      requires Valid() && pageN < |pages| && page == pages[pageN] && page.records == file[pageN]
      requires Findable(Chunks()[pageN], idx) && Covers(Chunks()[pageN], idx)
      ensures Valid() && Chunks() == old(Chunks()) && Cached() == old(Cached()) && page.records == file[pageN]
      ensures SlotOf(Chunks()[pageN], idx, slot)
    {
      ghost var c := Chunks()[pageN];
      PageEnds(pageN);
      assert PageLaid(pageN) && c == Chunk(pageN);
      EndsAtStart(c, idx);
      slot := ProbeLoop(page.records, page.nData, idx, c);
      forall i | 0 <= i < |pages|
        ensures PageLaid(i) && PageMapOk(i) && Chunk(i) == old(Chunk(i))
      {
        assert old(PageLaid(i)) && old(PageMapOk(i));
      }
      forall i | 0 <= i < |pages|
        ensures HeadOk(i)
      {
        assert old(HeadOk(i));
      }
    }

    /** The two searches that mmp_barray_search and mmp_barray_delete start with: page and slot of
        the record for `idx`, the page mapped. */
    method Locate(idx: nat) returns (pageN: nat, slot: Option<nat>)
      requires Valid() && Sorted(Chunks()) && idx < MOD32 && Searchable(Chunks(), idx)
      modifies cache`n, cache.slots, pages`records
      ensures Valid() && Chunks() == old(Chunks())
      ensures slot.Some? ==> pageN < |pages| && pages[pageN].records == file[pageN]
      ensures Located(old(Chunks()), idx, pageN, slot)
      ensures Cached() == TouchedBySearch(old(Cached()), cache.slots.Length, old(Chunks()), idx)
    {
      ghost var cs := Chunks();
      var found := FindPage(idx);
      pageN := found.value;
      if pageN == MapCache.UINT_MAX {
        NothingMapped(cs, idx);
        return pageN, None;
      }
      slot := SearchInPage(idx, pageN);
      FoundIsMapped(cs, idx, slot);
    }

    /** mmp_barray_search: what `*data` is set to. */
    method Search(idx: nat) returns (data: Option<T>)
      requires Valid() && Sorted(Chunks()) && idx < MOD32 && Searchable(Chunks(), idx)
      modifies cache`n, cache.slots, pages`records
      ensures Valid() && Chunks() == old(Chunks())
      ensures forall v :: data == Some(v) <==> Maps(old(Chunks()), idx, v)
      ensures Cached() == TouchedBySearch(old(Cached()), cache.slots.Length, old(Chunks()), idx)
    {
      var pageN, slot := Locate(idx);
      if slot.None? {
        return None;
      }
      ReadSlot(pageN);
      var rec := pages[pageN].records[slot.value];
      return if rec.present then Some(rec.data) else None;
    }

    lemma ReadSlot(pageN: nat)
      requires Valid() && pageN < |pages| && pages[pageN].records == file[pageN]
      ensures |Chunks()[pageN]| <= file[pageN].Length
      ensures forall j :: 0 <= j < |Chunks()[pageN]| ==> Chunks()[pageN][j] == pages[pageN].records[j]
    {
      assert PageLaid(pageN) && Chunks()[pageN] == Chunk(pageN);
    }

    /** mmp_barray_delete */
    method Delete(idx: nat) returns (ret: Ret)
      requires Valid() && Sorted(Chunks()) && idx < MOD32 && Searchable(Chunks(), idx)
      modifies cache`n, cache.slots, pages`records, file
      ensures Valid() && ret == (if exists v :: Maps(old(Chunks()), idx, v) then Ok else Generic)
      ensures LosesOnly(old(Chunks()), Chunks(), idx)
      ensures Cached() == TouchedBySearch(old(Cached()), cache.slots.Length, old(Chunks()), idx)
    {
      ghost var cs := Chunks();
      var pageN, slot := Locate(idx);
      if slot.None? {
        NothingLost(cs, idx);
        return Generic;
      }
      ReadSlot(pageN);
      if !pages[pageN].records[slot.value].present {
        NothingLost(cs, idx);
        return Generic;
      }
      assert Maps(cs, idx, pages[pageN].records[slot.value].data);
      ClearPresent(pageN, slot.value);
      DeletedFromMap(cs, pageN, slot.value);
      return Ok;
    }

    method ClearPresent(pageN: nat, slot: nat)
      requires Valid() && pageN < |pages| && slot < |Chunks()[pageN]| && pages[pageN].records == file[pageN]
      modifies file[pageN]
      ensures Valid() && pageN < |old(Chunks())| && slot < |old(Chunks())[pageN]|
      ensures Chunks() == Deleted(old(Chunks()), pageN, slot)
    {
      ghost var cs := Chunks();
      var page := pages[pageN];
      assert PageLaid(pageN) && HeadOk(pageN) && cs[pageN] == Chunk(pageN);
      page.records[slot] := page.records[slot].(present := false);
      forall i | 0 <= i < |pages|
        ensures PageLaid(i) && PageMapOk(i) && Chunk(i) == Deleted(cs, pageN, slot)[i]
      {
        assert old(PageLaid(i)) && old(PageMapOk(i)) && cs[i] == old(Chunk(i));
      }
      forall i | 0 <= i < |pages|
        ensures HeadOk(i)
      {
        assert old(HeadOk(i)) && old(PageLaid(i));
      }
      assert Chunks() == Deleted(cs, pageN, slot);
    }
  }

  /** The assignments of mmp_barray_insert; the data count is a 15-bit field. */
  method PutInPage<T>(page: Page<T>, idx: nat, data: T)
    requires page.records != null && page.nData < page.records.Length
    modifies page`nData, page`start, page`end, page.records
    ensures page.nData == (old(page.nData) + 1) % 0x8000 && page.end == idx
    ensures page.start == if old(page.start) == INVALID_IDX then idx else old(page.start)
    ensures page.records[..] == old(page.records[..])[old(page.nData) := Rec(true, idx, data)]
  {
    page.records[page.nData] := Rec(true, idx, data);
    page.end := idx;
    if page.start == INVALID_IDX { page.start := idx; }
    page.nData := (page.nData + 1) % 0x8000;
  }

  /** The file page holds these records and nothing behind them. */
  ghost predicate PageHolds<T>(mem: array<Rec<T>>, cap: nat, c: seq<Rec<T>>, full: bool)
    reads mem
  {
    && mem.Length == cap && 1 <= |c| <= cap && (full ==> |c| == cap)
    && mem[..|c|] == c && (forall j :: |c| <= j < cap ==> !mem[j].present)
    && forall j :: 0 <= j < |c| ==> c[j].idx < 0x8000_0000
  }

  ghost predicate FileHolds<T>(fd: seq<array<Rec<T>>>, cap: nat, cs: Chunks<T>)
    reads fd
  {
    |fd| == |cs| && forall i :: 0 <= i < |fd| ==> PageHolds(fd[i], cap, cs[i], i < |fd| - 1)
  }

  /** The rebuilt entry tells of the records that are there; it is that of the running array exactly when
      no record of the page was deleted. */
  ghost predicate PageRebuilt<T>(page: Page<T>, c: seq<Rec<T>>)
    reads page
  {
    && |c| > 0 && Head(page.nData, page.start, page.end) == Summary(PresentIdx(c))
    && (Head(page.nData, page.start, page.end) == HeadOf(c) <==> AllPresent(c))
  }

  /** The inner loop of mmp_barray_create. */
  method RebuildPage<T>(mem: array<Rec<T>>, cap: nat, ghost no: nat, ghost c: seq<Rec<T>>, ghost full: bool)
    returns (page: Page<T>)
    requires cap <= MAX_RECS && PageHolds(mem, cap, c, full)
    ensures fresh(page) && page.no == no && page.records == null && page.nData <= cap && PageRebuilt(page, c)
  {
    ghost var rest := mem[|c|..];
    assert mem[..cap] == c + rest;
    RebuiltIff(c, rest);
    RebuiltIs(c, rest);
    page := new Page(no);
    var j := 0;
    while j < cap
      invariant 0 <= j <= cap && page.records == null && mem[..cap] == c + rest
      invariant Head(page.nData, page.start, page.end) == Rebuilt(mem[..j])
      modifies page
    {
      assert mem[..j + 1][..j] == mem[..j];
      if mem[j].present {
        page.nData := (page.nData + 1) % 0x8000;
        if page.start == INVALID_IDX { page.start := mem[j].idx; }
        page.end := mem[j].idx;
      }
      j := j + 1;
    }
  }

  /** The outer loop of mmp_barray_create. */
  method RebuildTable<T>(fd: seq<array<Rec<T>>>, cap: nat, ghost cs: Chunks<T>) returns (pages: seq<Page<T>>)
    requires cap <= MAX_RECS && FileHolds(fd, cap, cs)
    ensures |pages| == |fd| && forall i :: 0 <= i < |pages| ==> fresh(pages[i])
    ensures forall i :: 0 <= i < |pages| ==> pages[i].no == i && pages[i].records == null && pages[i].nData <= cap
    ensures forall i :: 0 <= i < |pages| ==> PageRebuilt(pages[i], cs[i])
  {
    pages := [];
    var i := 0;
    while i < |fd|
      invariant 0 <= i == |pages| <= |fd| && forall k :: 0 <= k < i ==> fresh(pages[k])
      invariant forall k :: 0 <= k < i ==> pages[k].no == k && pages[k].records == null && pages[k].nData <= cap
      invariant forall k :: 0 <= k < i ==> PageRebuilt(pages[k], cs[k])
    {
      assert PageHolds(fd[i], cap, cs[i], i < |fd| - 1);
      var page := RebuildPage(fd[i], cap, i, cs[i], i < |fd| - 1);
      pages := pages + [page];
      i := i + 1;
    }
  }

  /** The file of a running array, as it can be reopened at any time. */
  lemma FileOfRunning<T(!new)>(b: BArray<T>)
    requires b.Valid()
    ensures FileHolds(b.file, b.recsPerPage, b.Chunks())
  {
    forall i | 0 <= i < |b.file|
      ensures PageHolds(b.file[i], b.recsPerPage, b.Chunks()[i], i < |b.file| - 1)
    {
      assert b.PageLaid(i) && b.HeadOk(i) && b.Chunks()[i] == b.Chunk(i);
    }
  }

  /** The loop of search_page. */
  method SearchHeads<T>(pages: seq<Page<T>>, idx: nat, ghost cs: Chunks<T>) returns (p: Option<nat>)
    requires |pages| == |cs| <= 0x4000_0000 && NoneEmpty(cs)
    requires forall i :: 0 <= i < |pages| ==> pages[i].start == First(cs[i]) && pages[i].end == Last(cs[i])
    ensures p == SearchFrom(cs, idx, 0, |cs|)
  {
    ghost var wanted := SearchFrom(cs, idx, 0, |cs|);
    var beg, end: nat := 0, |pages|;
    while beg <= end && end != INVALID_IDX
      invariant beg <= |cs| && (end <= |cs| || end == INVALID_IDX)
      invariant SearchFrom(cs, idx, beg, end) == wanted
      decreases if end == INVALID_IDX then 0 else end + 1 - beg
    {
      var mid := Mid(beg, end);
      SearchRound(cs, idx, beg, end, mid);
      if mid >= |pages| {
        return None;
      } else if idx < pages[mid].start {
        end := Pred(mid);
      } else if idx > pages[mid].end {
        beg := mid + 1;
      } else {
        return Some(mid);
      }
    }
    return Some(beg);
  }

  /** The loop of search_in_page. */
  method ProbeLoop<T>(records: array<Rec<T>>, nData: nat, idx: nat, ghost c: seq<Rec<T>>) returns (slot: Option<nat>)
    requires nData == |c| <= records.Length && c == records[..nData] && nData <= MAX_RECS
    requires nData > 0 && ChunkSorted(c) && Ends(c, idx, Window(0, nData - 1))
    ensures SlotOf(c, idx, slot)
  {
    var beg, end: nat := 0, nData - 1;
    while beg != end
      invariant Ends(c, idx, Window(beg, end))
      decreases end - beg
    {
      var mid := Mid(beg, end);
      ProbeRound(c, idx, beg, end, mid);
      assert records[mid] == c[mid];
      if idx < records[mid].idx {
        end := Pred(mid);
      } else if idx > records[mid].idx {
        beg := mid + 1;
      } else {
        return Some(mid);
      }
    }
    EndsAtOne(c, idx, Window(beg, end));
    assert records[beg] == c[beg];
    if records[beg].idx == idx {
      return Some(beg);
    }
    return None;
  }

  /** The page search_page comes to, if it does not leave the table. */
  function FoundPage<T>(cs: Chunks<T>, idx: nat): Option<nat>
    requires NoneEmpty(cs)
  {
    if cs == [] then Some(MapCache.UINT_MAX)
    else if idx > Last(cs[|cs| - 1]) then None
    else Some(FirstPage(cs, idx))
  }

  /** Not behind the last page, and findable in the page search_page will take. */
  ghost predicate Searchable<T>(cs: Chunks<T>, idx: nat)
    requires NoneEmpty(cs)
  {
    |cs| > 0 ==> idx <= Last(cs[|cs| - 1]) && FirstPage(cs, idx) < |cs| && Findable(cs[FirstPage(cs, idx)], idx)
  }

  lemma SearchIsFound<T>(cs: Chunks<T>, idx: nat)
    requires Sorted(cs) && |cs| <= 0x4000_0000
    ensures FoundPage(cs, idx) == if |cs| == 0 then Some(MapCache.UINT_MAX) else SearchFrom(cs, idx, 0, |cs|)
  {
    if |cs| > 0 { SearchPageIff(cs, idx); }
  }

  /** An index can be searched for exactly when both loops of the search come to an end: search_page
      inside the table, search_in_page, where it is entered, after some number of probes. */
  lemma SearchableIff<T>(cs: Chunks<T>, idx: nat)
    requires Sorted(cs) && 0 < |cs| <= 0x4000_0000 && forall i :: 0 <= i < |cs| ==> |cs[i]| <= MAX_RECS
    ensures Searchable(cs, idx) <==>
      var p := SearchFrom(cs, idx, 0, |cs|);
      p.Some? && p.value < |cs| && (Covers(cs[p.value], idx) ==> Stops(cs[p.value], idx))
  {
    SearchPageIff(cs, idx);
    if idx <= Last(cs[|cs| - 1]) {
      FirstPageExists(cs, idx);
      var c := cs[FirstPage(cs, idx)];
      if Covers(c, idx) { StopsIff(c, idx); }
    }
  }

  /** A search maps at most one page: the one that covers the index. */
  function TouchedBySearch<T>(ps: seq<nat>, max: nat, cs: Chunks<T>, idx: nat): seq<nat>
    requires NoneEmpty(cs)
  {
    var p := FirstPage(cs, idx);
    if p < |cs| && Covers(cs[p], idx) then Touched(ps, max, p) else ps
  }

  /** Slot `slot` of page `pageN` is where the record for `idx` is, if there is one; and the array
      maps `idx` to what is there, if that is present. */
  ghost predicate Located<T(!new)>(cs: Chunks<T>, idx: nat, pageN: nat, slot: Option<nat>) {
    if slot.None? then forall v :: !Maps(cs, idx, v)
    else
      && pageN < |cs| && slot.value < |cs[pageN]| && cs[pageN][slot.value].idx == idx
      && forall v :: Maps(cs, idx, v) <==> cs[pageN][slot.value].present && cs[pageN][slot.value].data == v
  }

  /** The same records in the same order, and one index less is mapped, if it was. */
  ghost predicate LosesOnly<T(!new)>(cs: Chunks<T>, cs': Chunks<T>, idx: nat) {
    && Sorted(cs') && SameShape(cs, cs')
    && (forall k, v :: Maps(cs', k, v) <==> Maps(cs, k, v) && k != idx)
    && forall k :: Written(cs', k) <==> Written(cs, k)
  }

  lemma NothingLost<T(!new)>(cs: Chunks<T>, idx: nat)
    requires Sorted(cs) && forall v :: !Maps(cs, idx, v)
    ensures LosesOnly(cs, cs, idx)
  {
  }

  lemma DeletedFromMap<T(!new)>(cs: Chunks<T>, i: nat, j: nat)
    requires Sorted(cs) && i < |cs| && j < |cs[i]|
    ensures LosesOnly(cs, Deleted(cs, i, j), cs[i][j].idx)
  {
    DeletedSorted(cs, i, j);
    forall k
      ensures Written(Deleted(cs, i, j), k) <==> Written(cs, k)
    {
      DeletedWritten(cs, i, j, k);
    }
    forall k, v
      ensures Maps(Deleted(cs, i, j), k, v) <==> Maps(cs, k, v) && k != cs[i][j].idx
    {
      DeletedMaps(cs, i, j, k, v);
    }
  }

  lemma NothingMapped<T(!new)>(cs: Chunks<T>, idx: nat)
    requires cs == []
    ensures forall v :: !Maps(cs, idx, v)
  {
  }

  /** What search_in_page says about the page search_page took is so for the whole array. */
  lemma FoundIsMapped<T(!new)>(cs: Chunks<T>, idx: nat, slot: Option<nat>)
    requires Sorted(cs) && FirstPage(cs, idx) < |cs| && SlotOf(cs[FirstPage(cs, idx)], idx, slot)
    ensures Located(cs, idx, FirstPage(cs, idx), slot)
  {
    var p := FirstPage(cs, idx);
    forall v | Maps(cs, idx, v)
      ensures slot.Some? && cs[p][slot.value].present && cs[p][slot.value].data == v
    {
      var i: nat, j: nat :| MapsAt(cs, i, j, idx, v);
      WithinEnds(cs, i, j);
      FirstPageCovers(cs, idx, i);
      assert cs[p][j].idx == idx;
      if slot.Some? { WrittenOnce(cs, i, j, p, slot.value, idx); }
    }
    if slot.Some? && cs[p][slot.value].present {
      assert MapsAt(cs, p, slot.value, idx, cs[p][slot.value].data);
    }
  }

  predicate Covers<T>(c: seq<Rec<T>>, idx: nat) {
    |c| > 0 && First(c) <= idx <= Last(c)
  }

  /** The index has a record in the page, or lies outside it, or in a gap the search comes out of. */
  ghost predicate Findable<T>(c: seq<Rec<T>>, idx: nat) {
    ChunkSorted(c) && (Covers(c, idx) ==> InChunk(c, idx) || GapOk(|c|, Rank(c, idx)))
  }

  ghost predicate SlotOf<T>(c: seq<Rec<T>>, idx: nat, slot: Option<nat>) {
    if slot.Some? then slot.value < |c| && c[slot.value].idx == idx else !InChunk(c, idx)
  }

  lemma NotCovered<T>(c: seq<Rec<T>>, idx: nat)
    requires ChunkSorted(c) && |c| > 0 && !Covers(c, idx)
    ensures !InChunk(c, idx)
  {
  }

  lemma EndsAtStart<T>(c: seq<Rec<T>>, idx: nat)
    requires Findable(c, idx) && Covers(c, idx) && |c| < 0x8000
    ensures Ends(c, idx, Window(0, |c| - 1))
  {
    StoredAtRank(c, idx);
  }

  /** A page that is needed is mapped: nothing happens if it is already. */
  function Touched(ps: seq<nat>, max: nat, p: nat): seq<nat> {
    if p in ps then ps else MapCache.Push(ps, max, p)
  }

  /** One more record on the last page. */
  function WithLast<T>(cs: Chunks<T>, r: Rec<T>): Chunks<T>
    requires |cs| > 0
  {
    cs[|cs| - 1 := cs[|cs| - 1] + [r]]
  }

  lemma AppendIs<T>(cs: Chunks<T>, cap: nat, r: Rec<T>, cs1: Chunks<T>)
    requires cs1 == if NeedsPage(cs, cap) then cs + [[]] else cs
    ensures |cs1| > 0 && WithLast(cs1, r) == Append(cs, cap, r)
  {
    if NeedsPage(cs, cap) { assert cs1[|cs|] + [r] == [r]; }
  }

  /** recs_per_page, and how many pages of this length 32-bit file offsets can address. */
  function RecsPerPage(pageSize: nat, dataSize: nat): nat {
    pageSize / (REC_HEAD + dataSize)
  }

  function MaxPages(pageSize: nat): nat
    requires pageSize > 0
  {
    MOD32 / pageSize
  }

  /** A page holds at least one record of at least four bytes, so page numbers fit 30 bits. */
  lemma FewPages(pageSize: nat, dataSize: nat)
    requires 1 <= RecsPerPage(pageSize, dataSize)
    ensures REC_HEAD <= pageSize && MaxPages(pageSize) <= 0x4000_0000
  {
    TimesAtLeast(MOD32 / pageSize, pageSize);
  }

  lemma TimesAtLeast(q: nat, len: nat)
    requires len >= REC_HEAD
    ensures q * len >= q * REC_HEAD
  {
  }
}
