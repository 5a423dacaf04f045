/**
 What mmp_bt_insert stores and returns on every B-tree, harmful splits on the way or not.
 */
module BTreeOutcome {
  import opened Status
  import opened BTreePages
  import opened BTreeShape
  import opened BTreeInsert
  import opened BTreeDescent

  /** The return code tells what became of the pages: with MMP_ERR_OK the record is stored, beside all
      that was; with MMP_ERR_PARAMS nothing is added, and the key was there. */
  ghost predicate Told(t: Tree, key: int, val: int, r: (Tree, Ret)) {
    && (r.1 == Ok || r.1 == Params)
    && (r.1 == Ok ==> Extended(t, r.0, key, val))
    && (r.1 == Params ==> Unchanged(t, r.0) && exists v :: Stored(t, key, v))
  }

  // ---- room above a full page, on the way down

  ghost predicate OwnChild(t: Tree, q: nat, j: nat)
    requires q < |t.pages| && j < |t.pages[q].recs|
  {
    var off := t.pages[q].recs[j].off;
    off.To? && off.no < |t.pages| ==> t.pages[off.no].parent == To(q)
  }

  /** The children of a page on a lower level name it as their parent. */
  ghost predicate OwnChildren(t: Tree, q: nat)
    requires q < |t.pages|
  {
    forall j :: 0 <= j <= t.pages[q].n && j < |t.pages[q].recs| ==> OwnChild(t, q, j)
  }

  ghost predicate RoomOver(t: Tree, q: nat, j: nat)
    requires q < |t.pages| && j < |t.pages[q].recs|
  {
    var off := t.pages[q].recs[j].off;
    off.To? && off.no < |t.pages| && t.pages[off.no].parent.To? ==>
      var P := t.pages[off.no].parent.no;
      P == q || (P < |t.pages| && t.pages[P].n < t.R)
  }

  /** The insertion has come to page `p` through pages that have room now, and so has the page that any
      child of `p` names as its parent, unless that is `p`. */
  ghost predicate Ready(t: Tree, L: seq<Label>, p: nat)
    requires |L| == |t.pages| && p < |t.pages|
  {
    && (t.pages[p].n < t.R || RoomAbove(t, p))
    && (forall j :: 0 <= j <= t.pages[p].n && j < |t.pages[p].recs| ==> RoomOver(t, p, j))
    && (forall q :: 0 <= q < |t.pages| && L[q].level < L[p].level ==> OwnChildren(t, q))
  }

  ghost predicate RoomAbove(t: Tree, p: nat)
    requires p < |t.pages|
  {
    t.pages[p].parent.To? ==>
      t.pages[p].parent.no < |t.pages| && t.pages[t.pages[p].parent.no].n < t.R
  }

  lemma LabelledOwn(t: Tree, L: seq<Label>, q: nat)
    requires Labelled(t, L) && q < |t.pages|
    ensures OwnChildren(t, q)
  {
    assert PageOk(t, L, q);
    forall j | 0 <= j <= t.pages[q].n && j < |t.pages[q].recs|
      ensures OwnChild(t, q, j)
    {
      if L[q].level > 0 { assert ChildOk(t, L, q, j); }
    }
  }

  lemma OwnIsRoom(t: Tree, q: nat)
    requires q < |t.pages| && OwnChildren(t, q)
    ensures forall j :: 0 <= j <= t.pages[q].n && j < |t.pages[q].recs| ==> RoomOver(t, q, j)
  {
    forall j | 0 <= j <= t.pages[q].n && j < |t.pages[q].recs|
      ensures RoomOver(t, q, j)
    {
      assert OwnChild(t, q, j);
    }
  }

  lemma RootReady(t: Tree, L: seq<Label>)
    requires Labelled(t, L)
    ensures Ready(t, L, t.root)
  {
    assert LinkOk(t, L, t.root);
    forall q | 0 <= q < |t.pages|
      ensures OwnChildren(t, q)
    {
      LabelledOwn(t, L, q);
    }
    OwnIsRoom(t, t.root);
  }

  /** Down from a page with room. */
  lemma ReadyBelow(t: Tree, L: seq<Label>, p: nat, key: int, c: nat)
    requires Zone(t, L, p, key) && Ready(t, L, p) && t.pages[p].n < t.R
    requires c < |t.pages| && L[c].level + 1 == L[p].level
    requires t.pages[p].recs[Slot(t.pages[p], key)].off == To(c)
    ensures Ready(t, L, c)
  {
    assert RoomOver(t, p, Slot(t.pages[p], key));
    OwnIsRoom(t, c);
  }

  /** A page is full only below one with room: pg_split never refuses. */
  lemma ReadySplits(t: Tree, L: seq<Label>, p: nat, key: int)
    requires Zone(t, L, p, key) && Ready(t, L, p) && t.pages[p].n >= t.R
    ensures CanSplit(t, p)
  {
    assert PageInBounds(t.R, |t.pages|, t.pages[p]);
  }

  /** A page that hangs from `p` or stands below it is none of those that the split writes. */
  lemma BelowUntouched(t: Tree, L: seq<Label>, p: nat, key: int, c: nat)
    requires Zone(t, L, p, key) && CanSplit(t, p) && c < |t.pages| && c != p && L[c].level <= L[p].level
    ensures var t' := Split(t, p).t; |t.pages| < |t'.pages| && t'.pages[c] == t.pages[c]
  {
    SplitPages(t, p);
  }

  /** The child that a half of `p` has in some slot hung from `p` before. */
  lemma HalfRoomOver(t: Tree, L: seq<Label>, p: nat, key: int, i: nat, to: nat, j: nat)
    requires Zone(t, L, p, key) && CanSplit(t, p) && Ready(t, L, p) && L[p].level > 0
    requires i <= t.pages[p].n < |t.pages[p].recs|
    requires to < |Split(t, p).t.pages| && j < |Split(t, p).t.pages[to].recs|
    requires Split(t, p).t.pages[to].recs[j].off == t.pages[p].recs[i].off
    ensures RoomOver(Split(t, p).t, to, j)
  {
    var off := t.pages[p].recs[i].off;
    assert ZonePage(t, L, p);
    assert ZoneChild(t, L, p, i) && RoomOver(t, p, i);
    if off.To? {
      var P := t.pages[off.no].parent.no;
      BelowUntouched(t, L, p, key, off.no);
      SplitPages(t, p);
      if P != p { BelowUntouched(t, L, p, key, P); }
    }
  }

  lemma LeftReady(t: Tree, L: seq<Label>, p: nat, key: int, j: nat)
    requires Zone(t, L, p, key) && CanSplit(t, p) && Ready(t, L, p)
    ensures p < |Split(t, p).t.pages|
    ensures var pg := Split(t, p).t.pages[p]; j <= pg.n && j < |pg.recs| ==> RoomOver(Split(t, p).t, p, j)
  {
    SplitPages(t, p);
    assert ZonePage(t, L, p);
    if j <= Split(t, p).t.pages[p].n && L[p].level > 0 { HalfRoomOver(t, L, p, key, j, p, j); }
  }

  lemma RightReady(t: Tree, L: seq<Label>, p: nat, key: int, j: nat)
    requires Zone(t, L, p, key) && CanSplit(t, p) && Ready(t, L, p)
    ensures var t', nu := Split(t, p).t, |WithParent(t, p).0.pages|;
      nu < |t'.pages| && (j <= t'.pages[nu].n && j < |t'.pages[nu].recs| ==> RoomOver(t', nu, j))
  {
    SplitPages(t, p);
    assert ZonePage(t, L, p);
    var nu := |WithParent(t, p).0.pages|;
    if j <= Split(t, p).t.pages[nu].n {
      RightSlot(t.pages[p], L[p], Split(t, p).par, t.R, j);
      if j < Split(t, p).t.pages[nu].n && L[p].level > 0 {
        HalfRoomOver(t, L, p, key, t.pages[p].n / 2 + 1 + j, nu, j);
      }
    }
  }

  lemma OwnAfterSplit(t: Tree, L: seq<Label>, p: nat, key: int, q: nat)
    requires Zone(t, L, p, key) && CanSplit(t, p) && q < |t.pages| && L[q].level < L[p].level && OwnChildren(t, q)
    ensures q < |Split(t, p).t.pages| && OwnChildren(Split(t, p).t, q)
  {
    var t' := Split(t, p).t;
    BelowUntouched(t, L, p, key, q);
    assert ZonePage(t, L, q) && PageInBounds(t.R, |t.pages|, t.pages[q]);
    forall j | 0 <= j <= t'.pages[q].n && j < |t'.pages[q].recs|
      ensures OwnChild(t', q, j)
    {
      assert OwnChild(t, q, j);
      var off := t.pages[q].recs[j].off;
      if off.To? {
        assert ZoneChild(t, L, q, j);
        BelowUntouched(t, L, p, key, off.no);
      }
    }
  }

  /** Into one of the halves. */
  lemma ReadyHalf(t: Tree, L: seq<Label>, p: nat, key: int, to: nat, L': seq<Label>, t': Tree)
    requires Zone(t, L, p, key) && CanSplit(t, p) && Ready(t, L, p)
    requires L' == SplitLabels(t, L, p) && t' == Split(t, p).t && |L'| == |t'.pages|
    requires to == p || to == |WithParent(t, p).0.pages|
    requires to < |t'.pages| && t'.pages[to].n < t'.R && L'[to].level == L[p].level
    ensures Ready(t', L', to)
  {
    SplitPages(t, p);
    forall j | 0 <= j <= t'.pages[to].n && j < |t'.pages[to].recs|
      ensures RoomOver(t', to, j)
    {
      if to == p { LeftReady(t, L, p, key, j); } else { RightReady(t, L, p, key, j); }
    }
    forall q | 0 <= q < |t'.pages| && L'[q].level < L'[to].level
      ensures OwnChildren(t', q)
    {
      OwnAfterSplit(t, L, p, key, q);
    }
  }

  // ---- what one pass does

  /** One pass: it stops having told, or goes on with the same records stored, ready as
      before, on the level told. */
  ghost predicate Passed(t: Tree, key: int, val: int, o: Outcome, L': seq<Label>, fuel: nat, level: int) {
    match o
    case Stop(t', ret) => Told(t, key, val, (t', ret))
    case Descend(t', to) =>
      && fuel > 0 && Unchanged(t, t') && OnTheWay(t', L', to, key, fuel - 1) && Ready(t', L', to)
      && L'[to].level == level
  }

  lemma RoomPassed(t: Tree, L: seq<Label>, p: nat, key: int, val: int, fuel: nat)
    requires OnTheWay(t, L, p, key, fuel) && Ready(t, L, p) && t.pages[p].n < t.R
    ensures Passed(t, key, val, Step(t, p, key, val), L, fuel, L[p].level - 1)
  {
    ActInZone(t, L, p, key, val);
    assert PageInBounds(t.R, |t.pages|, t.pages[p]);
    if !NotInPage(t.pages[p], key) {
      FoundIsStored(t, p, key);
    } else if t.pages[p].recs[Slot(t.pages[p], key)].off.Nil? {
      StoredInPage(t, p, key, val);
    } else {
      ReadyBelow(t, L, p, key, t.pages[p].recs[Slot(t.pages[p], key)].off.no);
    }
  }

  lemma StoredInPage(t: Tree, p: nat, key: int, val: int)
    requires p < |t.pages| && 0 <= t.pages[p].n < |t.pages[p].recs|
    ensures Extended(t, InLeaf(t, p, key, val), key, val)
  {
    forall k, v
      ensures Stored(InLeaf(t, p, key, val), k, v) <==> Stored(t, k, v) || (k == key && v == val)
    {
      InLeafStored(t, p, key, val, k, v);
    }
  }

  lemma SplitUnchanged(t: Tree, L: seq<Label>, p: nat, key: int)
    requires Zone(t, L, p, key) && CanSplit(t, p)
    ensures Unchanged(t, Split(t, p).t)
  {
    SplitPages(t, p);
    assert ZonePage(t, L, p);
    LeftKeysOk(t.R, t.pages[p], L[p], Split(t, p).par);
    forall k, v
      ensures Stored(Split(t, p).t, k, v) <==> Stored(t, k, v)
    {
      SplitStored(t, p, k, v);
    }
  }

  lemma FullPassed(t: Tree, L: seq<Label>, p: nat, key: int, val: int, fuel: nat) returns (L': seq<Label>)
    requires OnTheWay(t, L, p, key, fuel) && Ready(t, L, p) && t.pages[p].n >= t.R
    ensures Passed(t, key, val, Step(t, p, key, val), L', fuel, L[p].level)
  {
    ReadySplits(t, L, p, key);
    SplitUnchanged(t, L, p, key);
    FullAct(t, L, p, key, val);
    L' := StepInZone(t, L, p, key, val);
    var o := Step(t, p, key, val);
    SplitPages(t, p);
    SplitRoute(t, L, p, key);
    if o.Stop? {
      FoundIsStored(o.t, Split(t, p).par, key);
    } else {
      ReadyHalf(t, L, p, key, o.to, L', o.t);
    }
  }

  lemma ToldLater(t: Tree, t1: Tree, key: int, val: int, r: (Tree, Ret))
    requires Unchanged(t, t1) && Told(t1, key, val, r)
    ensures Told(t, key, val, r)
  {
  }

  lemma {:induction false} RunTold(t: Tree, L: seq<Label>, p: nat, key: int, val: int, fuel: nat, goal: (Tree, Ret))
    requires OnTheWay(t, L, p, key, fuel) && Ready(t, L, p) && goal == Run(t, p, key, val, fuel)
    ensures Told(t, key, val, goal)
    decreases fuel
  {
    var o, L' := Step(t, p, key, val), L;
    if t.pages[p].n < t.R {
      RoomPassed(t, L, p, key, val, fuel);
    } else {
      L' := FullPassed(t, L, p, key, val, fuel);
    }
    RunUnfolds(t, p, key, val, fuel, o, goal);
    if o.Descend? {
      RunTold(o.t, L', o.to, key, val, fuel - 1, goal);
      ToldLater(t, o.t, key, val, goal);
    }
  }

  /** mmp_bt_insert on every B-tree and for every key, harmful splits or not: it returns MMP_ERR_OK with
      the record stored beside all others, or MMP_ERR_PARAMS with nothing added for a key that is there. */
  lemma InsertTold(t: Tree, key: int, val: int)
    requires WellFormed(t)
    ensures InBounds(t) && Told(t, key, val, Insert(t, key, val))
  {
    var L :| Labelled(t, L);
    LabelledInBounds(t, L);
    assert LinkOk(t, L, t.root);
    LabelledZone(t, L, t.root, key);
    RootReady(t, L);
    RunTold(t, L, t.root, key, val, 2 * t.height + 2, Insert(t, key, val));
  }
}
