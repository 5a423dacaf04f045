/**
 The map cache functions of src/mmp_barray.c: which pages are mapped, with a hit count each.
 */
module MapCache {
  const UINT_MAX := 0xFFFF_FFFF

  datatype Entry = Entry(pageN: nat, hitCount: nat)

  /** Where the first entry of page `p` sits, or the length. */
  function IndexIn(es: seq<Entry>, p: nat): (i: nat)
    ensures i <= |es|
    ensures forall j :: 0 <= j < i ==> es[j].pageN != p
    ensures i < |es| ==> es[i].pageN == p
  {
    if es == [] || es[0].pageN == p then 0 else 1 + IndexIn(es[1..], p)
  }

  /** What removing the first entry of page `p` leaves. */
  function Without(es: seq<Entry>, p: nat): seq<Entry> {
    var i := IndexIn(es, p);
    if i < |es| then es[..i] + es[i + 1..] else es
  }

  lemma WithoutIs(es: seq<Entry>, p: nat, i: nat, rest: seq<Entry>)
    requires i == IndexIn(es, p) < |es| == |rest| + 1
    requires forall j :: 0 <= j < i ==> rest[j] == es[j]
    requires forall j :: i <= j < |rest| ==> rest[j] == es[j + 1]
    ensures rest == Without(es, p)
  {
    assert rest == es[..i] + es[i + 1..];
  }

  ghost predicate LeastHit(es: seq<Entry>, i: nat) {
    && i < |es|
    && (forall j :: 0 <= j < |es| ==> es[i].hitCount <= es[j].hitCount)
    && (forall j :: 0 <= j < i ==> es[i].hitCount < es[j].hitCount)
  }

  class Cache {
    const slots: array<Entry>
    var n: nat

    ghost predicate Valid()
      reads this, slots
    {
      && 1 <= slots.Length < UINT_MAX && n <= slots.Length
      && forall i :: 0 <= i < n ==> slots[i].hitCount < UINT_MAX
    }

    ghost function Entries(): seq<Entry>
      requires n <= slots.Length
      reads this, slots
    {
      slots[..n]
    }

    constructor (max: nat)
      requires 1 <= max < UINT_MAX
      ensures Valid() && fresh(slots) && slots.Length == max && Entries() == []
    {
      slots := new Entry[max](_ => Entry(0, 0));
      n := 0;
    }

    method IsLimitOk() returns (ok: bool)
      requires Valid()
      ensures ok <==> |Entries()| < slots.Length
    {
      ok := n < slots.Length;
    }

    method IndexOf(pageN: nat) returns (i: nat)
      requires Valid()
      ensures i == if IndexIn(Entries(), pageN) < n then IndexIn(Entries(), pageN) else UINT_MAX
    {
      i := 0;
      while i < n
        invariant 0 <= i <= n && forall j :: 0 <= j < i ==> slots[j].pageN != pageN
      {
        if slots[i].pageN == pageN { return; }
        i := i + 1;
      }
      i := UINT_MAX;
    }

    method IsCached(pageN: nat) returns (cached: bool)
      requires Valid()
      ensures cached <==> exists i :: 0 <= i < n && slots[i].pageN == pageN
    {
      var i := IndexOf(pageN);
      cached := i != UINT_MAX;
    }

    /** cache_get_less_hit: the earliest entry among those with the fewest hits. */
    method LessHit() returns (pageN: nat)
      requires Valid() && n > 0
      ensures exists i: nat :: LeastHit(Entries(), i) && pageN == Entries()[i].pageN
    {
      var i, lidx, min := 0, 0, UINT_MAX;
      while i < n
        invariant 0 <= i <= n && 0 <= lidx < n
        invariant i == 0 ==> min == UINT_MAX
        invariant i > 0 ==> lidx < i && min == slots[lidx].hitCount
        invariant forall j :: 0 <= j < i ==> min <= slots[j].hitCount
        invariant forall j :: 0 <= j < lidx && i > 0 ==> min < slots[j].hitCount
      {
        if slots[i].hitCount < min {
          min := slots[i].hitCount;
          lidx := i;
        }
        i := i + 1;
      }
      assert LeastHit(Entries(), lidx);
      pageN := slots[lidx].pageN;
    }

    /** cache_remove: the later entries move down. */
    method Remove(pageN: nat)
      requires Valid()
      modifies this`n, slots
      ensures Valid()
      ensures Entries() == Without(old(Entries()), pageN)
    {
      ghost var es := Entries();
      var idx := IndexOf(pageN);
      if idx == UINT_MAX { return; }
      var i := idx;
      while i < n - 1
        invariant idx <= i <= n - 1 && n == |es| <= slots.Length
        invariant forall j :: 0 <= j < idx ==> slots[j] == es[j]
        invariant forall j :: idx <= j < i ==> slots[j] == es[j + 1]
        invariant forall j :: i <= j < n ==> slots[j] == es[j]
      {
        slots[i] := Entry(slots[i + 1].pageN, slots[i + 1].hitCount);
        i := i + 1;
      }
      n := n - 1;
      WithoutIs(es, pageN, idx, Entries());
    }

    /** cache_hit: a page not cached gets an entry, and any page one more hit. */
    method Hit(pageN: nat)
      requires Valid()
      requires IndexIn(Entries(), pageN) == n ==> n < slots.Length
      requires IndexIn(Entries(), pageN) < n ==> slots[IndexIn(Entries(), pageN)].hitCount < UINT_MAX - 1
      modifies this`n, slots
      ensures Valid()
      ensures var es, i := old(Entries()), IndexIn(old(Entries()), pageN);
        Entries() == if i < |es| then es[i := Entry(pageN, es[i].hitCount + 1)] else es + [Entry(pageN, 1)]
    {
      ghost var es := Entries();
      var idx := IndexOf(pageN);
      if idx == UINT_MAX {
        idx := n;
        n := n + 1;
        slots[idx] := Entry(pageN, 0);
      }
      slots[idx] := slots[idx].(hitCount := slots[idx].hitCount + 1);
    }
  }

  // ---- first in, first out

  /** The cache as its user leaves it: distinct pages, each hit once. */
  ghost predicate OnceEach(es: seq<Entry>) {
    && (forall i :: 0 <= i < |es| ==> es[i].hitCount == 1)
    && (forall i, j :: 0 <= i < j < |es| ==> es[i].pageN != es[j].pageN)
  }

  function PagesOf(es: seq<Entry>): (ps: seq<nat>)
    ensures |ps| == |es| && forall i :: 0 <= i < |es| ==> ps[i] == es[i].pageN
  {
    seq(|es|, i requires 0 <= i < |es| => es[i].pageN)
  }

  /** A queue of at most `max` pages: at the limit the oldest goes. */
  function Push(ps: seq<nat>, max: nat, p: nat): seq<nat> {
    (if |ps| < max || |ps| == 0 then ps else ps[1..]) + [p]
  }

  lemma IndexInDistinct(es: seq<Entry>, i: nat)
    requires OnceEach(es) && i < |es|
    ensures IndexIn(es, es[i].pageN) == i
  {
  }

  lemma AddKeeps(es: seq<Entry>, p: nat)
    requires OnceEach(es) && forall i :: 0 <= i < |es| ==> es[i].pageN != p
    ensures OnceEach(es + [Entry(p, 1)]) && PagesOf(es + [Entry(p, 1)]) == PagesOf(es) + [p]
  {
  }

  lemma DropKeeps(es: seq<Entry>)
    requires OnceEach(es) && |es| > 0
    ensures OnceEach(es[1..]) && PagesOf(es[1..]) == PagesOf(es)[1..]
  {
  }

  /** Where every page was hit once, dropping the least hit page and adding a new one is first in,
      first out; and it leaves every page hit once. */
  lemma EvictionIsFifo(es: seq<Entry>, i: nat, p: nat)
    requires OnceEach(es) && LeastHit(es, i) && IndexIn(es, p) == |es|
    ensures var es' := Without(es, es[i].pageN) + [Entry(p, 1)];
      OnceEach(es') && PagesOf(es') == Push(PagesOf(es), |es|, p)
  {
    assert i == 0;
    IndexInDistinct(es, 0);
    assert Without(es, es[0].pageN) == es[1..];
    DropKeeps(es);
    AddKeeps(es[1..], p);
  }

  /** Below the limit a new page just joins the queue. */
  lemma AdditionIsFifo(es: seq<Entry>, max: nat, p: nat)
    requires OnceEach(es) && |es| < max && IndexIn(es, p) == |es|
    ensures var es' := es + [Entry(p, 1)];
      OnceEach(es') && PagesOf(es') == Push(PagesOf(es), max, p)
  {
    AddKeeps(es, p);
  }

  /** Page `q` has an entry. */
  predicate Has(es: seq<Entry>, q: nat) {
    IndexIn(es, q) < |es|
  }

  lemma HasIff(es: seq<Entry>, q: nat)
    ensures Has(es, q) <==> exists i :: 0 <= i < |es| && es[i].pageN == q
  {
  }

  lemma HasAfterAdd(es: seq<Entry>, p: nat, q: nat)
    ensures Has(es + [Entry(p, 1)], q) <==> Has(es, q) || q == p
  {
    HasIff(es, q);
    HasIff(es + [Entry(p, 1)], q);
    assert (es + [Entry(p, 1)])[|es|].pageN == p;
    if i :| 0 <= i < |es| && es[i].pageN == q { assert (es + [Entry(p, 1)])[i].pageN == q; }
  }

  lemma HasAfterDrop(es: seq<Entry>, q: nat)
    requires OnceEach(es) && |es| > 0
    ensures Has(es[1..], q) <==> Has(es, q) && q != es[0].pageN
  {
    HasIff(es, q);
    HasIff(es[1..], q);
    if i :| 0 < i < |es| && es[i].pageN == q { assert es[1..][i - 1].pageN == q; }
  }
}
