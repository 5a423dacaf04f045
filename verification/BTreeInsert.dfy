/**
 mmp_bt_insert on a B-tree: when it keeps the tree a B-tree, and what it then adds.
 */
module BTreeInsert {
  import opened Status
  import opened BTreePages
  import opened BTreeShape

  // ---- what a page holds after a shift and after a split

  lemma InsertedPageHas(pg: Page, key: int, val: int, off1: Link, off2: Link, pos: nat, k: int, v: int)
    requires pos <= pg.n < |pg.recs|
    ensures PageHas(InsertInPos(pg, key, val, off1, off2, pos), k, v) <==> PageHas(pg, k, v) || (k == key && v == val)
  {
    var r := InsertInPos(pg, key, val, off1, off2, pos);
    assert r.recs[pos] == Rec(off1, key, val);
    assert RecAt(r, pos, key, val);
    if PageHas(pg, k, v) {
      var i: nat :| RecAt(pg, i, k, v);
      if i < pos {
        assert RecAt(r, i, k, v);
      } else {
        assert r.recs[i + 1].key == pg.recs[i].key && r.recs[i + 1].val == pg.recs[i].val;
        assert RecAt(r, i + 1, k, v);
      }
    }
    if PageHas(r, k, v) {
      var i: nat :| RecAt(r, i, k, v);
      if i != pos { assert RecAt(pg, if i < pos then i else i - 1, k, v); }
    }
  }

  lemma SplitPageHas(pg: Page, par: nat, R: nat, k: int, v: int)
    requires 1 <= pg.n <= R && |pg.recs| == R + 1
    ensures PageHas(pg, k, v) <==>
      PageHas(LeftHalf(pg, par), k, v) || PageHas(RightHalf(pg, par, R), k, v) || RecAt(pg, pg.n / 2, k, v)
  {
    var sp, left, right := pg.n / 2, LeftHalf(pg, par), RightHalf(pg, par, R);
    if i: nat :| RecAt(pg, i, k, v) {
      if i < sp { assert RecAt(left, i, k, v); }
      if sp < i { assert RecAt(right, i - (sp + 1), k, v); }
    }
    if i: nat :| RecAt(left, i, k, v) { assert RecAt(pg, i, k, v); }
    if i: nat :| RecAt(right, i, k, v) { assert RecAt(pg, sp + 1 + i, k, v); }
  }

  // ---- inserting in a leaf that has room

  ghost function InLeaf(t: Tree, p: nat, key: int, val: int): Tree
    requires p < |t.pages| && 0 <= t.pages[p].n < |t.pages[p].recs|
  {
    t.(pages := t.pages[p := InsertInPos(t.pages[p], key, val, Nil, Nil, Slot(t.pages[p], key))])
  }

  /** The scan for `key` did not find it. */
  predicate NotInPage(pg: Page, key: int)
    requires 0 <= pg.n <= |pg.recs|
  {
    var i := Slot(pg, key);
    i < pg.n ==> pg.recs[i].key != key
  }

  /** The keys of a page after a shift: a strictly increasing sequence with one more member. */
  lemma InsertedKeys(pg: Page, key: int, val: int, off1: Link, off2: Link, pos: nat)
    requires pos <= pg.n < |pg.recs|
    ensures var r := InsertInPos(pg, key, val, off1, off2, pos);
      forall i :: 0 <= i < r.n ==>
        r.recs[i].key == if i < pos then pg.recs[i].key else if i == pos then key else pg.recs[i - 1].key
  {
  }

  lemma InsertedKeysOk(R: nat, pg: Page, l: Label, key: int, val: int, off1: Link, off2: Link)
    requires KeysOk(R, pg, l) && pg.n < R && Within(l, key) && NotInPage(pg, key)
    ensures KeysOk(R, InsertInPos(pg, key, val, off1, off2, Slot(pg, key)), l)
  {
    var pos := Slot(pg, key);
    var r := InsertInPos(pg, key, val, off1, off2, pos);
    InsertedKeys(pg, key, val, off1, off2, pos);
    BehindSlot(pg, key);
    forall i, j | 0 <= i < j < r.n
      ensures r.recs[i].key < r.recs[j].key
    {
      InsertedPair(pg, r, key, pos, i, j);
    }
    forall i | 0 <= i < r.n
      ensures Within(l, r.recs[i].key)
    {
    }
  }

  lemma BehindSlot(pg: Page, key: int)
    requires 0 <= pg.n <= |pg.recs| && NotInPage(pg, key)
    requires forall i, j :: 0 <= i < j < pg.n ==> pg.recs[i].key < pg.recs[j].key
    ensures forall i :: Slot(pg, key) <= i < pg.n ==> key < pg.recs[i].key
  {
    var pos := Slot(pg, key);
    forall i | pos <= i < pg.n
      ensures key < pg.recs[i].key
    {
      if pos < i { assert pg.recs[pos].key < pg.recs[i].key; }
    }
  }

  lemma InsertedPair(pg: Page, r: Page, key: int, pos: nat, i: nat, j: nat)
    requires pos <= pg.n < |pg.recs| && r.n == pg.n + 1 <= |r.recs| && i < j < r.n
    requires forall a, b :: 0 <= a < b < pg.n ==> pg.recs[a].key < pg.recs[b].key
    requires forall a :: 0 <= a < pos ==> pg.recs[a].key < key
    requires forall a :: pos <= a < pg.n ==> key < pg.recs[a].key
    requires forall a :: 0 <= a < r.n ==>
      r.recs[a].key == if a < pos then pg.recs[a].key else if a == pos then key else pg.recs[a - 1].key
    ensures r.recs[i].key < r.recs[j].key
  {
    if j < pos {
      assert r.recs[i].key == pg.recs[i].key && r.recs[j].key == pg.recs[j].key;
    } else if i > pos {
      assert r.recs[i].key == pg.recs[i - 1].key && r.recs[j].key == pg.recs[j - 1].key;
    } else {
      assert i < pos ==> r.recs[i].key == pg.recs[i].key;
      assert j > pos ==> r.recs[j].key == pg.recs[j - 1].key;
    }
  }

  /** Changing one page so that its keys, links and place stay right keeps everything else right. */
  lemma OtherPageKept(t: Tree, t': Tree, L: seq<Label>, p: nat, q: nat)
    requires Labelled(t, L) && p < |t.pages| && L[p].level == 0 && q < |t.pages| && q != p
    requires |t'.pages| == |t.pages| && t'.pages == t.pages[p := t'.pages[p]]
    requires t'.root == t.root && t'.height == t.height && t'.R == t.R && t'.pages[p].parent == t.pages[p].parent
    ensures PageOk(t', L, q) && LinkOk(t', L, q)
  {
    assert PageOk(t, L, q) && LinkOk(t, L, q);
    if L[q].level > 0 {
      forall j | 0 <= j <= t.pages[q].n
        ensures ChildOk(t', L, q, j)
      {
        assert ChildOk(t, L, q, j);
      }
    }
  }

  lemma InLeafLabelled(t: Tree, L: seq<Label>, p: nat, key: int, val: int)
    requires Labelled(t, L) && p < |t.pages| && PageOk(t, L, p)
    requires L[p].level == 0 && t.pages[p].n < t.R && Within(L[p], key) && NotInPage(t.pages[p], key)
    ensures Labelled(InLeaf(t, p, key, val), L)
  {
    var t' := InLeaf(t, p, key, val);
    InsertedKeysOk(t.R, t.pages[p], L[p], key, val, Nil, Nil);
    assert PageOk(t', L, p);
    assert LinkOk(t, L, p);
    assert LinkOk(t', L, p);
    forall q | 0 <= q < |t.pages|
      ensures PageOk(t', L, q) && LinkOk(t', L, q)
    {
      if q != p { OtherPageKept(t, t', L, p, q); }
    }
  }

  lemma InLeafStored(t: Tree, p: nat, key: int, val: int, k: int, v: int)
    requires p < |t.pages| && 0 <= t.pages[p].n < |t.pages[p].recs|
    ensures Stored(InLeaf(t, p, key, val), k, v) <==> Stored(t, k, v) || (k == key && v == val)
  {
    var t' := InLeaf(t, p, key, val);
    InsertedPageHas(t.pages[p], key, val, Nil, Nil, Slot(t.pages[p], key), k, v);
    if q :| 0 <= q < |t.pages| && PageHas(t.pages[q], k, v) { assert PageHas(t'.pages[q], k, v); }
    if q :| 0 <= q < |t'.pages| && PageHas(t'.pages[q], k, v) { assert q == p || PageHas(t.pages[q], k, v); }
    assert (k == key && v == val) ==> PageHas(t'.pages[p], k, v);
  }

  // ---- splitting

  ghost function Sep(t: Tree, p: nat): Rec
    requires p < |t.pages| && 0 <= t.pages[p].n / 2 < |t.pages[p].recs|
  {
    t.pages[p].recs[t.pages[p].n / 2]
  }

  /** Splitting moves records between pages; whatever the links do, none is lost or added
      when the separator is new to the parent. */
  lemma SplitStored(t: Tree, p: nat, k: int, v: int)
    requires InBounds(t) && p < |t.pages| && CanSplit(t, p)
    requires var (t1, par) := WithParent(t, p);
      forall i :: 0 <= i < t1.pages[par].n ==> t1.pages[par].recs[i].key != Sep(t, p).key
    ensures Stored(Split(t, p).t, k, v) <==> Stored(t, k, v)
  {
    SplitStaysInBounds(t, p);
    var (t1, par) := WithParent(t, p);
    var pg, t', sep := t.pages[p], Split(t, p).t, Sep(t, p);
    var up, i := t1.pages[par], Slot(t1.pages[par], sep.key);
    assert par != p;
    InsertedPageHas(up, sep.key, sep.val, To(p), To(|t1.pages|), i, k, v);
    SplitPageHas(pg, par, t.R, k, v);
    assert t'.pages[par] == InsertInPos(up, sep.key, sep.val, To(p), To(|t1.pages|), i);
    assert t'.pages[p] == LeftHalf(pg, par) && t'.pages[|t1.pages|] == RightHalf(pg, par, t.R);
    assert PageHas(pg, k, v) ==>
      PageHas(t'.pages[p], k, v) || PageHas(t'.pages[|t1.pages|], k, v) || PageHas(t'.pages[par], k, v);
    if q :| 0 <= q < |t.pages| && PageHas(t.pages[q], k, v) {
      if q != p { assert PageHas(t'.pages[q], k, v); }
    }
    if q :| 0 <= q < |t'.pages| && PageHas(t'.pages[q], k, v) {
      if q == p || q == |t1.pages| { assert PageHas(pg, k, v); }
      else if q == par { assert PageHas(up, k, v) || RecAt(pg, pg.n / 2, k, v); }
      else { assert PageHas(t.pages[q], k, v); }
    }
  }

  /** The intervals of the two halves. */
  ghost function LeftLabel(l: Label, sep: int): Label { l.(hi := Some(sep)) }
  ghost function RightLabel(l: Label, sep: int): Label { l.(lo := Some(sep), slot := l.slot + 1) }

  lemma LeftKeysOk(R: nat, pg: Page, l: Label, par: nat)
    requires KeysOk(R, pg, l) && pg.n == R >= 1
    ensures var sep := pg.recs[pg.n / 2].key; Within(l, sep) && KeysOk(R, LeftHalf(pg, par), LeftLabel(l, sep))
  {
    var sp := pg.n / 2;
    assert forall i :: 0 <= i < sp ==> pg.recs[i].key < pg.recs[sp].key;
  }

  lemma RightKeysOk(R: nat, pg: Page, l: Label, par: nat)
    requires KeysOk(R, pg, l) && pg.n == R >= 1
    ensures KeysOk(R, RightHalf(pg, par, R), RightLabel(l, pg.recs[pg.n / 2].key))
  {
    var sp, right, l' := pg.n / 2, RightHalf(pg, par, R), RightLabel(l, pg.recs[pg.n / 2].key);
    forall i | 0 <= i < right.n
      ensures right.recs[i].key == pg.recs[sp + 1 + i].key && Within(l', right.recs[i].key)
    {
      assert Within(l, pg.recs[sp + 1 + i].key) && pg.recs[sp].key < pg.recs[sp + 1 + i].key;
    }
  }

  lemma HalvesKeysOk(R: nat, pg: Page, l: Label, par: nat)
    requires KeysOk(R, pg, l) && pg.n == R >= 1
    ensures var sep := pg.recs[pg.n / 2].key;
      && Within(l, sep)
      && KeysOk(R, LeftHalf(pg, par), LeftLabel(l, sep))
      && KeysOk(R, RightHalf(pg, par, R), RightLabel(l, sep))
  {
    LeftKeysOk(R, pg, l, par);
    RightKeysOk(R, pg, l, par);
  }

  lemma HalvesChildless(R: nat, pg: Page, par: nat)
    requires Childless(pg) && 1 <= pg.n <= R && |pg.recs| == R + 1
    ensures Childless(LeftHalf(pg, par)) && Childless(RightHalf(pg, par, R))
  {
  }

  // ---- a full leaf that is its parent's last child

  ghost predicate LastLeaf(t: Tree, L: seq<Label>, p: nat)
    requires |L| == |t.pages| && p < |t.pages|
  {
    && L[p].level == 0 && p != t.root && LinkOk(t, L, p) && PageOk(t, L, p)
    && PageOk(t, L, t.pages[p].parent.no)
    && L[p].slot == t.pages[t.pages[p].parent.no].n < t.R
    && t.pages[p].n == t.R
  }

  ghost function LastLabels(t: Tree, L: seq<Label>, p: nat): seq<Label>
    requires InBounds(t) && |L| == |t.pages| && p < |t.pages|
  {
    L[p := LeftLabel(L[p], Sep(t, p).key)] + [RightLabel(L[p], Sep(t, p).key)]
  }

  /** The separator goes behind all of the parent's keys, so no live offset is overwritten. */
  lemma LastSplitPages(t: Tree, L: seq<Label>, p: nat)
    requires Labelled(t, L) && InBounds(t) && p < |t.pages| && LastLeaf(t, L, p)
    ensures CanSplit(t, p) && Within(L[p], Sep(t, p).key)
    ensures var P, sep, nu := t.pages[p].parent.no, Sep(t, p), |t.pages|;
      && Slot(t.pages[P], sep.key) == t.pages[P].n && P != p && L[P].level == 1 && Within(L[P], sep.key)
      && Split(t, p) == Done(t.(pages := t.pages[P := InsertInPos(t.pages[P], sep.key, sep.val, To(p), To(nu),
        t.pages[P].n)]
                                                [p := LeftHalf(t.pages[p], P)] + [RightHalf(t.pages[p], P, t.R)]), P)
  {
    HalvesKeysOk(t.R, t.pages[p], L[p], t.pages[p].parent.no);
    RouteUp(t, L, p, Sep(t, p).key);
  }

  lemma LastSplitParent(t: Tree, L: seq<Label>, p: nat)
    requires Labelled(t, L) && InBounds(t) && p < |t.pages| && LastLeaf(t, L, p)
    ensures var t', P := Split(t, p).t, t.pages[p].parent.no;
      CanSplit(t, p) && |t'.pages| == |t.pages| + 1 && P < |t.pages| && PageOk(t', LastLabels(t, L, p), P)
  {
    LastSplitPages(t, L, p);
    var t', L', P, n, sep := Split(t, p).t, LastLabels(t, L, p), t.pages[p].parent.no,
      t.pages[t.pages[p].parent.no].n, Sep(t, p);
    var was, up := t.pages[P], t'.pages[P];
    InsertedKeysOk(t.R, was, L[P], sep.key, sep.val, To(p), To(|t.pages|));
    forall j | 0 <= j <= up.n
      ensures ChildOk(t', L', P, j)
    {
      LastSplitChild(t, L, p, t', P, j);
    }
    forall j | up.n < j <= t.R
      ensures up.recs[j].off == Nil
    {
      assert was.recs[j].off == Nil;
    }
  }

  lemma LastSplitChild(t: Tree, L: seq<Label>, p: nat, t': Tree, P: nat, j: nat)
    requires Labelled(t, L) && InBounds(t) && p < |t.pages| && LastLeaf(t, L, p) && CanSplit(t, p)
    requires t' == Split(t, p).t && P == t.pages[p].parent.no && P < |t.pages|
      && j <= t.pages[P].n + 1 < |t.pages[P].recs|
    ensures |t'.pages| == |t.pages| + 1 && |t'.pages[P].recs| == |t.pages[P].recs|
      && ChildOk(t', LastLabels(t, L, p), P, j)
  {
    LastSplitPages(t, L, p);
    var n, was, up := t.pages[P].n, t.pages[P], t'.pages[P];
    assert ChildOk(t, L, P, if j <= n then j else n);
    assert up.recs[j].off == if j < n then was.recs[j].off else if j == n then To(p) else To(|t.pages|);
  }

  lemma LastSplitOther(t: Tree, L: seq<Label>, p: nat, q: nat)
    requires Labelled(t, L) && InBounds(t) && p < |t.pages| && LastLeaf(t, L, p)
    requires q < |t.pages| && q != p && q != t.pages[p].parent.no
    ensures var t' := Split(t, p).t;
      CanSplit(t, p) && |t'.pages| == |t.pages| + 1 && PageOk(t', LastLabels(t, L, p), q)
  {
    LastSplitPages(t, L, p);
    var t', L' := Split(t, p).t, LastLabels(t, L, p);
    assert PageOk(t, L, q);
    if L[q].level > 0 {
      forall j | 0 <= j <= t.pages[q].n
        ensures ChildOk(t', L', q, j)
      {
        assert ChildOk(t, L, q, j);
      }
    }
  }

  lemma LastSplitLink(t: Tree, L: seq<Label>, p: nat, q: nat)
    requires Labelled(t, L) && InBounds(t) && p < |t.pages| && LastLeaf(t, L, p) && q < |t.pages|
    ensures var t' := Split(t, p).t;
      CanSplit(t, p) && |t'.pages| == |t.pages| + 1 && LinkOk(t', LastLabels(t, L, p), q)
  {
    LastSplitPages(t, L, p);
    assert LinkOk(t, L, q);
  }

  lemma LastSplitLabelled(t: Tree, L: seq<Label>, p: nat)
    requires Labelled(t, L) && InBounds(t) && p < |t.pages| && LastLeaf(t, L, p)
    ensures CanSplit(t, p) && Labelled(Split(t, p).t, LastLabels(t, L, p))
  {
    LastSplitPages(t, L, p);
    var t', L', P, nu := Split(t, p).t, LastLabels(t, L, p), t.pages[p].parent.no, |t.pages|;
    HalvesKeysOk(t.R, t.pages[p], L[p], P);
    HalvesChildless(t.R, t.pages[p], P);
    LastSplitParent(t, L, p);
    forall q | 0 <= q < |t'.pages|
      ensures PageOk(t', L', q) && LinkOk(t', L', q)
    {
      if q < nu {
        LastSplitLink(t, L, p, q);
        if q != p && q != P { LastSplitOther(t, L, p, q); }
      }
    }
  }

  // ---- a full leaf that is the root

  ghost function RootLabels(t: Tree): seq<Label>
    requires InBounds(t)
  {
    var sep := Sep(t, t.root).key;
    [Label(0, None, Some(sep), 0), Label(1, None, None, 0), Label(0, Some(sep), None, 1)]
  }

  lemma LoneRoot(t: Tree, L: seq<Label>, q: nat)
    requires Labelled(t, L) && t.height == 0 && q < |t.pages|
    ensures q == t.root
  {
    assert LinkOk(t, L, q);
  }

  lemma RootSplitPages(t: Tree, L: seq<Label>)
    requires Labelled(t, L) && InBounds(t) && t.height == 0 && t.pages[t.root].n == t.R
    ensures t.root == 0 && |t.pages| == 1 && PageOk(t, L, 0) && CanSplit(t, 0) && L[0].level == 0
      && L[0].lo == None == L[0].hi
    ensures var pg, sep := t.pages[0], Sep(t, 0);
      Split(t, 0) == Done(Tree(t.R, 1, 1, [LeftHalf(pg, 1),
        InsertInPos(EmptyPage(t.R), sep.key, sep.val, To(0), To(2), 0), RightHalf(pg, 1, t.R)]), 1)
  {
    assert LinkOk(t, L, t.root) && PageOk(t, L, t.root);
    LoneRoot(t, L, 0);
    LoneRoot(t, L, |t.pages| - 1);
    var (t1, par) := WithParent(t, 0);
    assert t1.pages == [t.pages[0], EmptyPage(t.R)];
  }

  lemma RootSplitLabelled(t: Tree, L: seq<Label>)
    requires Labelled(t, L) && InBounds(t) && t.height == 0 && t.pages[t.root].n == t.R
    ensures CanSplit(t, t.root) && Labelled(Split(t, t.root).t, RootLabels(t))
  {
    RootSplitPages(t, L);
    var t', L', pg := Split(t, 0).t, RootLabels(t), t.pages[0];
    HalvesKeysOk(t.R, pg, L[0], 1);
    HalvesChildless(t.R, pg, 1);
    var up := t'.pages[1];
    assert up.n == 1 && up.recs[0].off == To(0) && up.recs[1].off == To(2);
    assert ChildOk(t', L', 1, 0) && ChildOk(t', L', 1, 1);
    assert PageOk(t', L', 0) && LinkOk(t', L', 0);
    assert PageOk(t', L', 1) && LinkOk(t', L', 1);
    assert PageOk(t', L', 2) && LinkOk(t', L', 2);
    assert |L'| == |t'.pages| == 3;
  }

  // ---- a whole insertion, when nothing but the root leaf or a last leaf is split

  /** Checked on the tree before the call: the pages passed on the way down to `key` have room,
      or the last one is a leaf that is the root or the last child of its parent. */
  predicate SafeDescent(t: Tree, p: nat, key: int, level: nat)
    requires InBounds(t) && p < |t.pages|
    decreases level
  {
    assert PageInBounds(t.R, |t.pages|, t.pages[p]);
    var pg, i := t.pages[p], Slot(t.pages[p], key);
    if pg.recs[0].off.Nil? then pg.n < t.R || p == t.root || IsLastChild(t, p)
    else
      && pg.n < t.R
      && (|| (i < pg.n && pg.recs[i].key == key)
          || (level > 0 && pg.recs[i].off.To? && SafeDescent(t, pg.recs[i].off.no, key, level - 1)))
  }

  predicate IsLastChild(t: Tree, p: nat)
    requires InBounds(t) && p < |t.pages|
  {
    assert PageInBounds(t.R, |t.pages|, t.pages[p]);
    && t.pages[p].parent.To?
    && var P := t.pages[p].parent.no;
      assert PageInBounds(t.R, |t.pages|, t.pages[P]);
      t.pages[P].recs[t.pages[P].n].off == To(p)
  }

  ghost predicate Unchanged(t: Tree, t': Tree) {
    forall k, v :: Stored(t', k, v) <==> Stored(t, k, v)
  }

  ghost predicate Extended(t: Tree, t': Tree, key: int, val: int) {
    forall k, v :: Stored(t', k, v) <==> Stored(t, k, v) || (k == key && v == val)
  }

  /** A new key is added with its value; a key that is there already is refused; the rest stays. */
  ghost predicate Correct(t: Tree, key: int, val: int, r: (Tree, Ret)) {
    && WellFormed(r.0)
    && ((exists v :: Stored(t, key, v)) ==> r.1 == Params && Unchanged(t, r.0))
    && (!(exists v :: Stored(t, key, v)) ==> r.1 == Ok && Extended(t, r.0, key, val))
  }

  lemma FoundIsStored(t: Tree, p: nat, key: int)
    requires p < |t.pages| && 0 <= t.pages[p].n <= |t.pages[p].recs| && !NotInPage(t.pages[p], key)
    ensures exists v :: Stored(t, key, v)
  {
    var i := Slot(t.pages[p], key);
    assert RecAt(t.pages[p], i, key, t.pages[p].recs[i].val);
    assert Stored(t, key, t.pages[p].recs[i].val);
  }

  /** A leaf whose interval has the key is the only page that could hold it. */
  lemma NotInLeafIsNotStored(t: Tree, L: seq<Label>, p: nat, key: int)
    requires Labelled(t, L) && InBounds(t) && p < |t.pages| && L[p].level == 0 && Within(L[p], key)
    requires PageOk(t, L, p) && NotInPage(t.pages[p], key)
    ensures !exists v :: Stored(t, key, v)
  {
    assert LinkOk(t, L, p);
    var top := Ancestor(t, L, p, t.height);
    assert LinkOk(t, L, top);
    SearchFromAncestor(t, L, p, key, t.height, 1);
    if v :| Stored(t, key, v) {
      var q :| 0 <= q < |t.pages| && PageHas(t.pages[q], key, v);
      var i: nat :| RecAt(t.pages[q], i, key, v);
      SearchComplete(t, L, q, i, key, v);
    }
  }

  lemma LeafCorrect(t: Tree, L: seq<Label>, p: nat, key: int, val: int)
    requires Labelled(t, L) && InBounds(t) && p < |t.pages| && L[p].level == 0 && t.pages[p].n < t.R
      && Within(L[p], key)
    ensures var o := Step(t, p, key, val); o.Stop? && Correct(t, key, val, (o.t, o.ret))
  {
    assert PageOk(t, L, p);
    if NotInPage(t.pages[p], key) {
      InLeafLabelled(t, L, p, key, val);
      NotInLeafIsNotStored(t, L, p, key);
      forall k, v
        ensures Stored(InLeaf(t, p, key, val), k, v) <==> Stored(t, k, v) || (k == key && v == val)
      {
        InLeafStored(t, p, key, val, k, v);
      }
    } else {
      FoundIsStored(t, p, key);
    }
  }

  lemma CorrectAfterSplit(t: Tree, t': Tree, key: int, val: int, r: (Tree, Ret))
    requires Unchanged(t, t') && Correct(t', key, val, r)
    ensures Correct(t, key, val, r)
  {
  }

  /** The scan of the parent, whose slots `s` and `s + 1` now hold the two halves of `p`. */
  lemma {:induction false} ParentCorrect(t: Tree, L: seq<Label>, par: nat, key: int, val: int, fuel: nat)
    requires Labelled(t, L) && InBounds(t) && par < |t.pages| && L[par].level == 1 && Within(L[par], key) && fuel >= 1
    requires PageOk(t, L, par)
    requires var pg, i := t.pages[par], Slot(t.pages[par], key);
      pg.recs[i].off.To? && pg.recs[i].off.no < |t.pages| && t.pages[pg.recs[i].off.no].n < t.R
    ensures var o := Act(t, par, key, val);
      Correct(t, key, val, if o.Stop? then (o.t, o.ret) else Run(o.t, o.to, key, val, fuel - 1))
  {
    if NotInPage(t.pages[par], key) {
      Route(t, L, par, key);
      LeafCorrect(t, L, t.pages[par].recs[Slot(t.pages[par], key)].off.no, key, val);
    } else {
      FoundIsStored(t, par, key);
    }
  }

  lemma LastLeafCorrect(t: Tree, L: seq<Label>, p: nat, key: int, val: int, fuel: nat)
    requires Labelled(t, L) && InBounds(t) && p < |t.pages| && LastLeaf(t, L, p) && Within(L[p], key) && fuel >= 1
    ensures Correct(t, key, val, Run(t, p, key, val, fuel))
  {
    LastSplitPages(t, L, p);
    LastSplitLabelled(t, L, p);
    RouteUp(t, L, p, key);
    var t', L', P := Split(t, p).t, LastLabels(t, L, p), t.pages[p].parent.no;
    assert PageOk(t', L', P);
    forall k, v
      ensures Stored(t', k, v) <==> Stored(t, k, v)
    {
      SplitStored(t, p, k, v);
    }
    var n, up := t.pages[P].n, t'.pages[P];
    assert up.recs[n].off == To(p) && up.recs[n + 1].off == To(|t.pages|) && up.recs[n].key == Sep(t, p).key;
    assert forall i :: 0 <= i < n ==> up.recs[i] == t.pages[P].recs[i];
    assert n <= Slot(up, key);
    ParentCorrect(t', L', P, key, val, fuel);
    CorrectAfterSplit(t, t', key, val, Run(t, p, key, val, fuel));
  }

  lemma RootLeafCorrect(t: Tree, L: seq<Label>, key: int, val: int, fuel: nat)
    requires Labelled(t, L) && InBounds(t) && t.height == 0 && t.pages[t.root].n == t.R && fuel >= 1
    ensures Correct(t, key, val, Run(t, t.root, key, val, fuel))
  {
    RootSplitPages(t, L);
    RootSplitLabelled(t, L);
    var t', L' := Split(t, 0).t, RootLabels(t);
    assert PageOk(t', L', 1);
    forall k, v
      ensures Stored(t', k, v) <==> Stored(t, k, v)
    {
      SplitStored(t, 0, k, v);
    }
    var up := t'.pages[1];
    assert up.recs[0].off == To(0) && up.recs[1].off == To(2);
    ParentCorrect(t', L', 1, key, val, fuel);
    CorrectAfterSplit(t, t', key, val, Run(t, 0, key, val, fuel));
  }

  /** The last page of a safe descent. */
  lemma LeafRunCorrect(t: Tree, L: seq<Label>, p: nat, key: int, val: int, fuel: nat)
    requires Labelled(t, L) && InBounds(t) && p < |t.pages| && Within(L[p], key) && L[p].level == 0 && fuel >= 1
    requires SafeDescent(t, p, key, 0)
    requires p != t.root ==> LinkOk(t, L, p) && t.pages[t.pages[p].parent.no].n < t.R
    ensures Correct(t, key, val, Run(t, p, key, val, fuel))
  {
    assert PageOk(t, L, p) && LinkOk(t, L, p);
    if t.pages[p].n < t.R {
      LeafCorrect(t, L, p, key, val);
    } else if p == t.root {
      RootLeafCorrect(t, L, key, val, fuel);
    } else {
      LastIsLastLeaf(t, L, p);
      LastLeafCorrect(t, L, p, key, val, fuel);
    }
  }

  lemma {:induction false} RunCorrect(t: Tree, L: seq<Label>, p: nat, key: int, val: int, fuel: nat)
    requires Labelled(t, L) && InBounds(t) && p < |t.pages| && Within(L[p], key)
    requires SafeDescent(t, p, key, L[p].level) && fuel >= L[p].level + 1
    requires p != t.root ==> LinkOk(t, L, p) && t.pages[t.pages[p].parent.no].n < t.R
    ensures Correct(t, key, val, Run(t, p, key, val, fuel))
    decreases L[p].level
  {
    if L[p].level == 0 {
      LeafRunCorrect(t, L, p, key, val, fuel);
    } else {
      assert PageOk(t, L, p);
      assert ChildOk(t, L, p, 0);
      if NotInPage(t.pages[p], key) {
        Route(t, L, p, key);
        var c := t.pages[p].recs[Slot(t.pages[p], key)].off.no;
        assert LinkOk(t, L, c);
        RunCorrect(t, L, c, key, val, fuel - 1);
      } else {
        FoundIsStored(t, p, key);
      }
    }
  }

  /** The page in its parent's last slot has that slot in its label, and finds room above it. */
  lemma LastIsLastLeaf(t: Tree, L: seq<Label>, p: nat)
    requires Labelled(t, L) && InBounds(t) && p < |t.pages| && p != t.root && L[p].level == 0
    requires IsLastChild(t, p) && t.pages[p].n == t.R
    requires t.pages[t.pages[p].parent.no].n < t.R
    ensures LastLeaf(t, L, p)
  {
    assert PageOk(t, L, p) && LinkOk(t, L, p);
    var P := t.pages[p].parent.no;
    assert PageOk(t, L, P);
    assert ChildOk(t, L, P, t.pages[P].n);
  }
}
