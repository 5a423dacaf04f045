/**
 Runs of mmp_bt_insert with strictly increasing keys from an empty tree: exactly how many the
 literal code carries.
 */
module BTreeRuns {
  import opened Status
  import opened BTreePages
  import opened BTreeShape
  import opened BTreeInsert
  import opened BTreeDescent
  import opened BTreeLimit

  /** mmp_bt_create on an empty file. */
  function EmptyTree(R: nat): Tree {
    Tree(R, 0, 0, [EmptyPage(R)])
  }

  /** The tree after all insertions, and whether each of them returned MMP_ERR_OK. */
  function InsertAll(t: Tree, kvs: seq<(int, int)>): (r: (Tree, bool))
    requires InBounds(t)
    ensures InBounds(r.0)
  {
    if kvs == [] then (t, true) else
    var (t', ok) := InsertAll(t, kvs[..|kvs| - 1]);
    var (key, val) := kvs[|kvs| - 1];
    var (t'', ret) := Insert(t', key, val);
    (t'', ok && ret == Ok)
  }

  ghost predicate Increasing(kvs: seq<(int, int)>) {
    forall i, j :: 0 <= i < j < |kvs| ==> kvs[i].0 < kvs[j].0
  }

  /** How many increasing keys fit before the root, full of separators, would have to split. */
  function Capacity(R: nat): nat
    requires R >= 1
  {
    R + 1 + (R - 1) * (R / 2 + 1)
  }

  /** The shape after `m` increasing keys: a leaf, or a root over leaves of which only the last grows. */
  ghost predicate Grown(t: Tree, m: nat)
    requires InBounds(t)
  {
    assert PageInBounds(t.R, |t.pages|, t.pages[t.root]);
    var r := t.pages[t.root].n;
    if t.height == 0 then m == r
    else
      && t.height == 1 && 1 <= r && t.pages[t.root].recs[r].off.To?
      && var last := t.pages[t.pages[t.root].recs[r].off.no];
        m == r * (t.R / 2 + 1) + last.n && last.n >= t.R - t.R / 2
  }

  /** Past the last key of a page the scan stops at slot `n`. */
  lemma SlotAtEnd(pg: Page, key: int)
    requires 0 <= pg.n <= |pg.recs| && forall i :: 0 <= i < pg.n ==> pg.recs[i].key < key
    ensures Slot(pg, key) == pg.n && NotInPage(pg, key)
  {
  }

  ghost predicate AboveAll(t: Tree, key: int) {
    forall k, v :: Stored(t, k, v) ==> k < key
  }

  lemma AboveAllSlot(t: Tree, p: nat, key: int)
    requires InBounds(t) && AboveAll(t, key) && p < |t.pages|
    ensures PageInBounds(t.R, |t.pages|, t.pages[p])
    ensures Slot(t.pages[p], key) == t.pages[p].n && NotInPage(t.pages[p], key)
  {
    var pg := t.pages[p];
    assert PageInBounds(t.R, |t.pages|, pg);
    forall i | 0 <= i < pg.n
      ensures pg.recs[i].key < key
    {
      assert RecAt(pg, i, pg.recs[i].key, pg.recs[i].val);
      assert Stored(t, pg.recs[i].key, pg.recs[i].val);
    }
    SlotAtEnd(pg, key);
  }

  /** A key above all others goes to the end of the last leaf, if that has room. */
  lemma AppendToLeaf(t: Tree, p: nat, key: int, val: int, fuel: nat)
    requires InBounds(t) && AboveAll(t, key) && p < |t.pages| && t.pages[p].n < t.R
    requires PageInBounds(t.R, |t.pages|, t.pages[p]) && t.pages[p].recs[t.pages[p].n].off == Nil
    ensures Run(t, p, key, val, fuel) ==
      (t.(pages := t.pages[p := InsertInPos(t.pages[p], key, val, Nil, Nil, t.pages[p].n)]), Ok)
  {
    AboveAllSlot(t, p, key);
  }

  lemma GrowLeafRoot(t: Tree, key: int, val: int)
    requires WellFormed(t) && InBounds(t) && AboveAll(t, key) && t.height == 0 && t.pages[t.root].n < t.R
    ensures var t' := Insert(t, key, val).0; t'.R == t.R && Grown(t', t.pages[t.root].n + 1)
  {
    var L :| Labelled(t, L);
    assert PageOk(t, L, t.root) && LinkOk(t, L, t.root);
    AppendToLeaf(t, t.root, key, val, 2);
  }

  lemma GrowSplitRoot(t: Tree, key: int, val: int)
    requires WellFormed(t) && InBounds(t) && AboveAll(t, key) && t.height == 0 && t.pages[t.root].n == t.R
    ensures var t' := Insert(t, key, val).0; t'.R == t.R && Grown(t', t.R + 1)
  {
    var L :| Labelled(t, L);
    RootSplitPages(t, L);
    RootSplitLabelled(t, L);
    var t1, L1 := Split(t, 0).t, RootLabels(t);
    assert PageOk(t1, L1, 1) && PageOk(t1, L1, 2);
    forall k, v
      ensures Stored(t1, k, v) <==> Stored(t, k, v)
    {
      SplitStored(t, 0, k, v);
    }
    AboveAllSlot(t1, 1, key);
    AppendToLeaf(t1, 2, key, val, 1);
    assert t1.pages[1].recs[1].off == To(2);
  }

  /** With room in the root, the key goes to the end of the last leaf; a full one is split first. */
  lemma GrowLastLeaf(t: Tree, key: int, val: int)
    requires WellFormed(t) && InBounds(t) && AboveAll(t, key) && t.height == 1 && t.pages[t.root].n < t.R
    requires PageInBounds(t.R, |t.pages|, t.pages[t.root]) && t.pages[t.root].recs[t.pages[t.root].n].off.To?
    requires t.pages[t.pages[t.root].recs[t.pages[t.root].n].off.no].n < t.R
    ensures var t', r := Insert(t, key, val).0, t.pages[t.root].n;
      var last := t.pages[t.root].recs[r].off.no;
      && t'.R == t.R && t'.height == 1 && t'.root == t.root && |t'.pages| == |t.pages|
      && t'.pages[t.root] == t.pages[t.root]
      && last != t.root && t'.pages[last].n == t.pages[last].n + 1
  {
    var L :| Labelled(t, L);
    var r := t.pages[t.root].n;
    assert PageOk(t, L, t.root) && LinkOk(t, L, t.root);
    assert ChildOk(t, L, t.root, r);
    var last := t.pages[t.root].recs[r].off.no;
    assert PageOk(t, L, last);
    AboveAllSlot(t, t.root, key);
    AppendToLeaf(t, last, key, val, 3);
  }

  lemma LastChildIsLastLeaf(t: Tree, L: seq<Label>)
    requires Labelled(t, L) && InBounds(t) && t.height == 1 && 1 <= t.pages[t.root].n < t.R
    requires PageInBounds(t.R, |t.pages|, t.pages[t.root]) && t.pages[t.root].recs[t.pages[t.root].n].off.To?
    requires t.pages[t.pages[t.root].recs[t.pages[t.root].n].off.no].n == t.R
    ensures LastLeaf(t, L, t.pages[t.root].recs[t.pages[t.root].n].off.no)
    ensures t.pages[t.pages[t.root].recs[t.pages[t.root].n].off.no].parent == To(t.root)
  {
    var r := t.pages[t.root].n;
    assert PageOk(t, L, t.root) && LinkOk(t, L, t.root);
    assert ChildOk(t, L, t.root, r);
    var last := t.pages[t.root].recs[r].off.no;
    assert PageOk(t, L, last) && LinkOk(t, L, last);
  }

  lemma GrowSplitLast(t: Tree, key: int, val: int)
    requires WellFormed(t) && InBounds(t) && AboveAll(t, key) && t.height == 1 && 1 <= t.pages[t.root].n < t.R
    requires PageInBounds(t.R, |t.pages|, t.pages[t.root]) && t.pages[t.root].recs[t.pages[t.root].n].off.To?
    requires t.pages[t.pages[t.root].recs[t.pages[t.root].n].off.no].n == t.R
    ensures var t', r, nu := Insert(t, key, val).0, t.pages[t.root].n, |t.pages|;
      && t'.R == t.R && t'.height == 1 && t'.root == t.root && |t'.pages| == nu + 1
      && t'.pages[t.root].n == r + 1 && t'.pages[t.root].recs[r + 1].off == To(nu)
      && t'.pages[nu].n == t.R - t.R / 2
  {
    var L :| Labelled(t, L);
    LastChildIsLastLeaf(t, L);
    var r, nu := t.pages[t.root].n, |t.pages|;
    var last := t.pages[t.root].recs[r].off.no;
    LastSplitPages(t, L, last);
    LastSplitLabelled(t, L, last);
    var t1, L1 := Split(t, last).t, LastLabels(t, L, last);
    assert PageOk(t1, L1, nu) && PageOk(t1, L1, t.root);
    AboveAllSlot(t, t.root, key);
    forall k, v
      ensures Stored(t1, k, v) <==> Stored(t, k, v)
    {
      SplitStored(t, last, k, v);
    }
    AboveAllSlot(t1, t.root, key);
    AppendToLeaf(t1, nu, key, val, 2);
    assert t1.pages[t.root].recs[r + 1].off == To(nu);
    GrowSplitLastRun(t, last, t1, key, val);
  }

  /** Two passes: down to the full leaf; the split, and down to its new right half. */
  lemma GrowSplitLastRun(t: Tree, last: nat, t1: Tree, key: int, val: int)
    requires InBounds(t) && t.height == 1 && t.pages[t.root].n < t.R
    requires PageInBounds(t.R, |t.pages|, t.pages[t.root]) && Slot(t.pages[t.root], key) == t.pages[t.root].n
    requires NotInPage(t.pages[t.root], key) && t.pages[t.root].recs[t.pages[t.root].n].off == To(last)
    requires last < |t.pages| && t.pages[last].n >= t.R && Split(t, last) == Done(t1, t.root)
    requires InBounds(t1) && t.root < |t1.pages| && PageInBounds(t1.R, |t1.pages|, t1.pages[t.root])
    requires Slot(t1.pages[t.root], key) == t1.pages[t.root].n && NotInPage(t1.pages[t.root], key)
    requires t1.pages[t.root].recs[t1.pages[t.root].n].off == To(|t.pages|) && |t.pages| < |t1.pages|
    ensures Insert(t, key, val) == Run(t1, |t.pages|, key, val, 2)
  {
    assert Step(t, t.root, key, val) == Descend(t, last);
    assert Run(t, t.root, key, val, 4) == Run(t, last, key, val, 3);
    assert Step(t, last, key, val) == Descend(t1, |t.pages|);
  }

  /** One more increasing key, while fewer than Capacity(R) are there, is safe and keeps the shape. */
  lemma GrowStep(t: Tree, m: nat, key: int, val: int)
    requires WellFormed(t) && InBounds(t) && AboveAll(t, key) && Grown(t, m) && m < Capacity(t.R)
    ensures SafeDescent(t, t.root, key, t.height)
    ensures var t' := Insert(t, key, val).0; t'.R == t.R && Grown(t', m + 1)
  {
    var L :| Labelled(t, L);
    assert PageOk(t, L, t.root) && LinkOk(t, L, t.root);
    AboveAllSlot(t, t.root, key);
    var r := t.pages[t.root].n;
    if t.height == 0 {
      if r < t.R { GrowLeafRoot(t, key, val); } else { GrowSplitRoot(t, key, val); }
    } else {
      var last := t.pages[t.root].recs[r].off.no;
      assert ChildOk(t, L, t.root, r) && ChildOk(t, L, t.root, 0);
      assert PageOk(t, L, last);
      RootHasRoom(t.R, r, t.pages[last].n, m);
      if t.pages[last].n < t.R { GrowLastLeaf(t, key, val); } else { GrowSplitLast(t, key, val); }
    }
  }

  /** With every leaf but the last at R / 2 keys, the root fills up exactly at Capacity(R) keys. */
  lemma RootHasRoom(R: nat, r: nat, last: int, m: int)
    requires 1 <= R && 1 <= r <= R && R - R / 2 <= last <= R && m == r * (R / 2 + 1) + last
    ensures r < R <==> m < Capacity(R)
    ensures (r + 1) * (R / 2 + 1) == r * (R / 2 + 1) + R / 2 + 1
  {
    var w := R / 2 + 1;
    OneMore(R - 1, w);
    OneMore(r, w);
    if r < R { TimesMonotone(r, R - 1, w); }
  }

  lemma OneMore(a: nat, w: nat)
    ensures (a + 1) * w == a * w + w
  {
  }

  lemma TimesMonotone(a: nat, b: nat, w: nat)
    requires a <= b
    ensures a * w <= b * w
  {
  }

  /** What an increasing run of at most Capacity(R) keys leaves. */
  ghost predicate Holds(t: Tree, kvs: seq<(int, int)>) {
    forall k, v :: Stored(t, k, v) <==> (k, v) in kvs
  }

  lemma EmptyTreeOk(R: nat)
    requires R >= 1
    ensures var t := EmptyTree(R); InBounds(t) && WellFormed(t) && Grown(t, 0) && Holds(t, [])
  {
    var t, L := EmptyTree(R), [Label(0, None, None, 0)];
    assert PageOk(t, L, 0) && LinkOk(t, L, 0);
    assert Labelled(t, L);
  }

  ghost predicate RunOk(t: Tree, R: nat, kvs: seq<(int, int)>) {
    InBounds(t) && t.R == R && WellFormed(t) && Grown(t, |kvs|) && Holds(t, kvs)
  }

  lemma RunStep(t: Tree, R: nat, kvs: seq<(int, int)>, key: int, val: int)
    requires R >= 1 && RunOk(t, R, kvs) && |kvs| < Capacity(R)
    requires forall i :: 0 <= i < |kvs| ==> kvs[i].0 < key
    ensures Insert(t, key, val).1 == Ok && RunOk(Insert(t, key, val).0, R, kvs + [(key, val)])
  {
    forall k, v | Stored(t, k, v)
      ensures k < key
    {
      var i :| 0 <= i < |kvs| && kvs[i] == (k, v);
    }
    GrowStep(t, |kvs|, key, val);
    InsertCorrectIff(t, key, val);
  }

  lemma {:induction false} RunGrows(R: nat, kvs: seq<(int, int)>)
    requires R >= 1 && Increasing(kvs) && |kvs| <= Capacity(R)
    ensures InBounds(EmptyTree(R)) && InsertAll(EmptyTree(R), kvs).1 && RunOk(InsertAll(EmptyTree(R), kvs).0, R, kvs)
  {
    EmptyTreeOk(R);
    if kvs != [] {
      var n := |kvs| - 1;
      RunGrows(R, kvs[..n]);
      RunStep(InsertAll(EmptyTree(R), kvs[..n]).0, R, kvs[..n], kvs[n].0, kvs[n].1);
      assert kvs[..n] + [(kvs[n].0, kvs[n].1)] == kvs;
    }
  }

  /** Every prefix of an increasing run leaves a B-tree exactly when the run is not longer than
      Capacity(R); the insertion after that splits the full root and loses the last leaf. */
  lemma IncreasingRunIff(R: nat, kvs: seq<(int, int)>)
    requires R >= 1 && Increasing(kvs)
    ensures InBounds(EmptyTree(R))
    ensures |kvs| <= Capacity(R) <==>
      forall n :: 0 <= n <= |kvs| ==> WellFormed(InsertAll(EmptyTree(R), kvs[..n]).0)
  {
    EmptyTreeOk(R);
    if |kvs| <= Capacity(R) {
      forall n | 0 <= n <= |kvs|
        ensures WellFormed(InsertAll(EmptyTree(R), kvs[..n]).0)
      {
        RunGrows(R, kvs[..n]);
      }
    } else {
      var n := Capacity(R);
      var more := kvs[..n + 1];
      assert more[..n] == kvs[..n];
      RunGrows(R, kvs[..n]);
      var t := InsertAll(EmptyTree(R), kvs[..n]).0;
      FullRoot(t, more[n].0);
      InsertCorrectIff(t, more[n].0, more[n].1);
    }
  }

  lemma FullRoot(t: Tree, key: int)
    requires WellFormed(t) && InBounds(t) && Grown(t, Capacity(t.R))
    ensures !SafeDescent(t, t.root, key, t.height)
  {
    var L :| Labelled(t, L);
    assert PageOk(t, L, t.root) && LinkOk(t, L, t.root);
    var r := t.pages[t.root].n;
    if t.height == 1 {
      assert ChildOk(t, L, t.root, 0);
      FullCount(t, L);
    } else {
      RootHolds(t.R);
    }
  }

  lemma FullCount(t: Tree, L: seq<Label>)
    requires Labelled(t, L) && InBounds(t) && t.height == 1 && Grown(t, Capacity(t.R))
    ensures t.pages[t.root].n == t.R
  {
    assert PageOk(t, L, t.root) && LinkOk(t, L, t.root);
    var r := t.pages[t.root].n;
    assert ChildOk(t, L, t.root, r);
    var last := t.pages[t.root].recs[r].off.no;
    assert PageOk(t, L, last);
    RootHasRoom(t.R, r, t.pages[last].n, Capacity(t.R));
  }

  /** One leaf cannot hold that many. */
  lemma RootHolds(R: nat)
    requires R >= 1
    ensures R < Capacity(R)
  {
    TimesMonotone(0, R - 1, R / 2 + 1);
  }

  /** A run within the capacity returns MMP_ERR_OK throughout, and afterwards mmp_bt_search finds
      each inserted key with its own value and no other key. */
  lemma IncreasingRunFinds(R: nat, kvs: seq<(int, int)>, key: int, val: int)
    requires R >= 1 && Increasing(kvs) && |kvs| <= Capacity(R)
    ensures InBounds(EmptyTree(R))
    ensures var (t, ok) := InsertAll(EmptyTree(R), kvs);
      ok && InBounds(t) && (Find(t, key) == Some(val) <==> (key, val) in kvs)
  {
    RunGrows(R, kvs);
    FindOnlyStored(InsertAll(EmptyTree(R), kvs).0, key);
  }

  // ---- the smallest case past the capacity, with one key a page

  const ZERO := Rec(Nil, 0, 0)

  /** The tree that the keys 1 and 2 leave when a page holds one key. */
  function TwoKeys(): Tree {
    Tree(1, 1, 1, [Page(0, To(1), [Rec(Nil, 1, 10), ZERO]), Page(1, Nil, [Rec(To(0), 1, 10), Rec(To(2), 0, 0)]),
                   Page(1, To(1), [Rec(Nil, 2, 20), ZERO])])
  }

  lemma TwoKeysOk()
    ensures InBounds(TwoKeys()) && WellFormed(TwoKeys()) && Find(TwoKeys(), 2) == Some(20)
  {
    var t, L := TwoKeys(), [Label(0, None, Some(1), 0), Label(1, None, None, 0), Label(0, Some(1), None, 1)];
    assert ChildOk(t, L, 1, 0) && ChildOk(t, L, 1, 1);
    assert PageOk(t, L, 0) && PageOk(t, L, 1) && PageOk(t, L, 2);
    assert LinkOk(t, L, 0) && LinkOk(t, L, 1) && LinkOk(t, L, 2);
    assert Labelled(t, L);
    LabelledInBounds(t, L);
    assert RecAt(t.pages[2], 0, 2, 20);
    SearchComplete(t, L, 2, 0, 2, 20);
  }

  lemma ShiftOne(pg: Page, key: int, val: int, off1: Link, off2: Link)
    requires pg.n == 0 && |pg.recs| == 2
    ensures InsertInPos(pg, key, val, off1, off2, 0) ==
      Page(1, pg.parent, [Rec(off1, key, val), pg.recs[1].(off := off2)])
  {
  }

  /** The split of the root with keys 1 above and 2 below it: its right half has no child. */
  lemma SplitTwoKeys(t1: Tree)
    requires InBounds(TwoKeys()) && t1 == Split(TwoKeys(), 1).t
    ensures Split(TwoKeys(), 1) == Done(t1, 3) && InBounds(t1) && t1.R == 1 && t1.root == 3 && t1.height == 2
      && |t1.pages| == 5
    ensures t1.pages[3] == Page(1, Nil, [Rec(To(1), 1, 10), Rec(To(4), 0, 0)])
    ensures t1.pages[4] == Page(0, To(3), [ZERO, ZERO])
  {
    var pg := TwoKeys().pages[1];
    SplitPages(TwoKeys(), 1);
    ShiftOne(EmptyPage(1), 1, 10, To(1), To(4));
    assert RightHalf(pg, 3, 1).recs == [ZERO, ZERO];
  }

  lemma SplitDescends(t: Tree, t1: Tree, par: nat, nu: nat, key: int, val: int)
    requires InBounds(t) && t.pages[t.root].n >= t.R && Split(t, t.root) == Done(t1, par) && par < |t1.pages|
    requires var up := t1.pages[par]; up.n == 1 && |up.recs| == 2 && up.recs[0].key < key && up.recs[1].off == To(nu)
    ensures Step(t, t.root, key, val) == Descend(t1, nu)
  {
    assert Slot(t1.pages[par], key) == 1;
  }

  lemma LeafStops(t: Tree, p: nat, t2: Tree, key: int, val: int)
    requires InBounds(t) && p < |t.pages| && t.R == 1 && t.pages[p].n == 0 && t.pages[p].recs == [ZERO, ZERO]
    requires t2 == t.(pages := t.pages[p := Page(1, t.pages[p].parent, [Rec(Nil, key, val), ZERO])])
    ensures Step(t, p, key, val) == Stop(t2, Ok)
  {
    ShiftOne(t.pages[p], key, val, Nil, Nil);
  }

  lemma SearchTwoLevels(t: Tree, key: int)
    requires InBounds(t) && t.height == 2 && t.root == 3 && |t.pages| == 5
    requires t.pages[3].n == 1 && |t.pages[3].recs| == 2 && t.pages[3].recs[0].key < key
      && t.pages[3].recs[1].off == To(4)
    requires t.pages[4].n == 1 && |t.pages[4].recs| == 2 && key < t.pages[4].recs[0].key
      && t.pages[4].recs[0].off == Nil
    ensures Find(t, key) == None
  {
    assert Slot(t.pages[3], key) == 1 && Slot(t.pages[4], key) == 0;
    assert Search(t, To(4), key, 2) == None;
  }

  /** Inserting 3 then returns MMP_ERR_OK, and key 2, found before, is not found any more. */
  lemma SecondKeyLost()
    ensures InBounds(TwoKeys()) && WellFormed(TwoKeys()) && Find(TwoKeys(), 2) == Some(20)
    ensures var (t, ret) := Insert(TwoKeys(), 3, 30); ret == Ok && InBounds(t) && Find(t, 2) == None
  {
    TwoKeysOk();
    var t, t1 := TwoKeys(), Split(TwoKeys(), 1).t;
    SplitTwoKeys(t1);
    var t2 := t1.(pages := t1.pages[4 := Page(1, To(3), [Rec(Nil, 3, 30), ZERO])]);
    SplitDescends(t, t1, 3, 4, 3, 30);
    LeafStops(t1, 4, t2, 3, 30);
    RunUnfolds(t, 1, 3, 30, 4, Descend(t1, 4), Insert(t, 3, 30));
    RunUnfolds(t1, 4, 3, 30, 3, Stop(t2, Ok), Run(t1, 4, 3, 30, 3));
    SearchTwoLevels(t2, 2);
  }
}
