/**
 When a page file is a B-tree, what it maps keys to, and why mmp_bt_search finds exactly that.
 */
module BTreeShape {
  import opened Status
  import opened BTreePages

  /** The place of a page: its distance from the leaves, the open key interval it covers,
      and the slot of its parent it hangs from. */
  datatype Label = Label(level: nat, lo: Option<int>, hi: Option<int>, slot: nat)

  ghost predicate Within(l: Label, key: int) {
    (l.lo.Some? ==> l.lo.value < key) && (l.hi.Some? ==> key < l.hi.value)
  }

  /** The interval of the subtree in slot `j`. */
  ghost function Lo(pg: Page, l: Label, j: nat): Option<int>
    requires j <= |pg.recs|
  {
    if j == 0 then l.lo else Some(pg.recs[j - 1].key)
  }

  ghost function Hi(pg: Page, l: Label, j: nat): Option<int>
    requires j < |pg.recs|
  {
    if j < pg.n then Some(pg.recs[j].key) else l.hi
  }

  /** Keys strictly increasing and inside the interval; exactly R + 1 slots, at most R keys. */
  ghost predicate KeysOk(R: nat, pg: Page, l: Label) {
    && 0 <= pg.n <= R && |pg.recs| == R + 1
    && (forall i, j :: 0 <= i < j < pg.n ==> pg.recs[i].key < pg.recs[j].key)
    && (forall i :: 0 <= i < pg.n ==> Within(l, pg.recs[i].key))
  }

  ghost predicate Childless(pg: Page) {
    forall j :: 0 <= j < |pg.recs| ==> pg.recs[j].off == Nil
  }

  /** The child in slot `j` of page `q` exists, points back, and has the label this slot gives it. */
  ghost predicate ChildOk(t: Tree, L: seq<Label>, q: nat, j: nat)
    requires |L| == |t.pages| && q < |t.pages| && j < |t.pages[q].recs|
  {
    var pg := t.pages[q];
    && pg.recs[j].off.To?
    && var c := pg.recs[j].off.no;
      && c < |t.pages|
      && t.pages[c].parent == To(q)
      && L[c].level + 1 == L[q].level
      && L[c].lo == Lo(pg, L[q], j) && L[c].hi == Hi(pg, L[q], j) && L[c].slot == j
  }

  ghost predicate PageOk(t: Tree, L: seq<Label>, q: nat)
    requires |L| == |t.pages| && q < |t.pages|
  {
    var pg, l := t.pages[q], L[q];
    && KeysOk(t.R, pg, l)
    && (l.level == 0 ==> Childless(pg))
    && (l.level > 0 ==>
          && (forall j :: 0 <= j <= pg.n ==> ChildOk(t, L, q, j))
          && (forall j :: pg.n < j <= t.R ==> pg.recs[j].off == Nil))
  }

  /** Every page but the root hangs from its parent; the root alone is on top level. */
  ghost predicate LinkOk(t: Tree, L: seq<Label>, q: nat)
    requires |L| == |t.pages| && q < |t.pages|
  {
    if q == t.root then
      t.pages[q].parent == Nil && L[q].level == t.height && L[q].lo == None && L[q].hi == None
    else
      && t.pages[q].parent.To?
      && var P := t.pages[q].parent.no;
        && P < |t.pages|
        && L[q].level < t.height && L[q].level + 1 == L[P].level
        && L[q].slot <= t.pages[P].n < |t.pages[P].recs|
        && t.pages[P].recs[L[q].slot].off == To(q)
  }

  ghost predicate Labelled(t: Tree, L: seq<Label>) {
    && 1 <= t.R && t.root < |t.pages| && |L| == |t.pages|
    && (forall q :: 0 <= q < |t.pages| ==> PageOk(t, L, q))
    && (forall q :: 0 <= q < |t.pages| ==> LinkOk(t, L, q))
  }

  /** A B-tree: keys ordered throughout, at most R keys a page, parent links inverse to child
      links, all leaves on level 0, and no page outside the tree. */
  ghost predicate WellFormed(t: Tree) {
    exists L :: Labelled(t, L)
  }

  ghost predicate RecAt(pg: Page, i: nat, key: int, val: int) {
    i < pg.n && i < |pg.recs| && pg.recs[i].key == key && pg.recs[i].val == val
  }

  ghost predicate PageHas(pg: Page, key: int, val: int) {
    exists i :: RecAt(pg, i, key, val)
  }

  /** What a tree maps its keys to, read off all its pages. */
  ghost predicate Stored(t: Tree, key: int, val: int) {
    exists q :: 0 <= q < |t.pages| && PageHas(t.pages[q], key, val)
  }

  lemma LabelledInBounds(t: Tree, L: seq<Label>)
    requires Labelled(t, L)
    ensures InBounds(t)
  {
    forall q | 0 <= q < |t.pages|
      ensures PageInBounds(t.R, |t.pages|, t.pages[q])
    {
      assert PageOk(t, L, q) && LinkOk(t, L, q);
      forall i | 0 <= i <= t.R
        ensures LinkInBounds(|t.pages|, t.pages[q].recs[i].off)
      {
        if L[q].level > 0 && i <= t.pages[q].n { assert ChildOk(t, L, q, i); }
      }
    }
  }

  // ---- searching

  /** A scan for a key of a page's interval goes to the child whose interval has the key. */
  lemma Route(t: Tree, L: seq<Label>, p: nat, key: int)
    requires Labelled(t, L) && p < |t.pages| && Within(L[p], key) && L[p].level > 0
    ensures PageOk(t, L, p)
    ensures var pg, i := t.pages[p], Slot(t.pages[p], key);
      && ChildOk(t, L, p, i)
      && (!(i < pg.n && pg.recs[i].key == key) ==> Within(L[pg.recs[i].off.no], key))
  {
    assert PageOk(t, L, p);
    assert ChildOk(t, L, p, Slot(t.pages[p], key));
  }

  /** A key inside a page's interval is inside its parent's, and the parent's scan comes back. */
  lemma RouteUp(t: Tree, L: seq<Label>, q: nat, key: int)
    requires Labelled(t, L) && q < |t.pages| && q != t.root && Within(L[q], key)
    ensures LinkOk(t, L, q)
    ensures var P := t.pages[q].parent.no;
      && PageOk(t, L, P) && Within(L[P], key)
      && Slot(t.pages[P], key) == L[q].slot
      && !(L[q].slot < t.pages[P].n && t.pages[P].recs[L[q].slot].key == key)
  {
    assert LinkOk(t, L, q);
    var P := t.pages[q].parent.no;
    assert PageOk(t, L, P);
    assert ChildOk(t, L, P, L[q].slot);
    var s := L[q].slot;
    if s > 0 { assert Within(L[P], t.pages[P].recs[s - 1].key); }
    if s < t.pages[P].n { assert Within(L[P], t.pages[P].recs[s].key); }
  }

  /** What a search finds is stored. */
  lemma {:induction false} SearchSound(t: Tree, l: Link, key: int, fuel: nat)
    requires InBounds(t) && LinkInBounds(|t.pages|, l)
    ensures var r := Search(t, l, key, fuel); r.Some? ==> Stored(t, key, r.value)
    decreases fuel
  {
    if l.To? && fuel > 0 {
      assert PageInBounds(t.R, |t.pages|, t.pages[l.no]);
      var i := Slot(t.pages[l.no], key);
      if i < t.pages[l.no].n && t.pages[l.no].recs[i].key == key {
        assert RecAt(t.pages[l.no], i, key, t.pages[l.no].recs[i].val);
      } else {
        SearchSound(t, t.pages[l.no].recs[i].off, key, fuel - 1);
      }
    }
  }

  /** The ancestor of `q` on level `l`. */
  ghost function Ancestor(t: Tree, L: seq<Label>, q: nat, l: nat): (a: nat)
    requires Labelled(t, L) && q < |t.pages| && L[q].level <= l <= t.height
    ensures a < |t.pages| && L[a].level == l
    decreases l - L[q].level
  {
    assert LinkOk(t, L, q);
    if L[q].level == l then q else Ancestor(t, L, t.pages[q].parent.no, l)
  }

  // ---- the pages a search passes

  /** Page `path[i]` of a search: the scan finds the key, which is then the answer; or it goes on
      to the next page; or there is none, and no answer. */
  ghost predicate OnPath(t: Tree, path: seq<nat>, i: nat, key: int)
    requires InBounds(t) && i < |path|
  {
    path[i] < |t.pages| &&
    var pg := t.pages[path[i]];
    assert PageInBounds(t.R, |t.pages|, pg);
    var j := Slot(pg, key);
    if j < pg.n && pg.recs[j].key == key then Find(t, key) == Some(pg.recs[j].val)
    else if i + 1 < |path| then pg.recs[j].off == To(path[i + 1])
    else pg.recs[j].off == Nil && Find(t, key) == None
  }

  lemma {:induction false} SearchPathFrom(t: Tree, L: seq<Label>, p: nat, key: int, fuel: nat) returns (path: seq<nat>)
    requires Labelled(t, L) && InBounds(t) && p < |t.pages| && Within(L[p], key) && fuel > L[p].level
    requires Search(t, To(p), key, fuel) == Find(t, key)
    ensures |path| > 0 && path[0] == p && forall i :: 0 <= i < |path| ==> OnPath(t, path, i, key)
    decreases fuel
  {
    assert PageOk(t, L, p);
    var pg, j := t.pages[p], Slot(t.pages[p], key);
    path := [p];
    if !(j < pg.n && pg.recs[j].key == key) && pg.recs[j].off.To? {
      Route(t, L, p, key);
      var rest := SearchPathFrom(t, L, pg.recs[j].off.no, key, fuel - 1);
      path := [p] + rest;
      forall i | 0 < i < |path|
        ensures OnPath(t, path, i, key)
      {
        assert OnPath(t, rest, i - 1, key);
      }
    }
    assert OnPath(t, path, 0, key);
  }

  /** The pages mmp_bt_search passes in a B-tree. */
  lemma SearchPath(t: Tree, key: int) returns (path: seq<nat>)
    requires WellFormed(t)
    ensures InBounds(t) && |path| > 0 && path[0] == t.root && forall i :: 0 <= i < |path| ==> OnPath(t, path, i, key)
  {
    var L :| Labelled(t, L);
    LabelledInBounds(t, L);
    assert LinkOk(t, L, t.root);
    path := SearchPathFrom(t, L, t.root, key, t.height + 1);
  }

  /** A search that starts at an ancestor on level `l` passes through `q`. */
  lemma {:induction false} SearchFromAncestor(t: Tree, L: seq<Label>, q: nat, key: int, l: nat, fuel: nat)
    requires Labelled(t, L) && InBounds(t) && q < |t.pages| && Within(L[q], key) && L[q].level <= l <= t.height
    ensures Search(t, To(Ancestor(t, L, q, l)), key, l - L[q].level + fuel) == Search(t, To(q), key, fuel)
    decreases l - L[q].level
  {
    if L[q].level < l {
      assert LinkOk(t, L, q);
      RouteUp(t, L, q, key);
      SearchFromAncestor(t, L, t.pages[q].parent.no, key, l, fuel + 1);
    }
  }

  /** A stored key is found, with the value stored beside it. */
  lemma SearchComplete(t: Tree, L: seq<Label>, q: nat, i: nat, key: int, val: int)
    requires Labelled(t, L) && InBounds(t) && q < |t.pages| && RecAt(t.pages[q], i, key, val)
    ensures Find(t, key) == Some(val)
  {
    assert PageOk(t, L, q) && LinkOk(t, L, q);
    var top := Ancestor(t, L, q, t.height);
    assert LinkOk(t, L, top);
    SearchFromAncestor(t, L, q, key, t.height, L[q].level + 1);
    assert Slot(t.pages[q], key) == i;
  }

  /** mmp_bt_search answers exactly from what is stored; so no key is stored twice. */
  lemma FindIffStored(t: Tree, key: int, val: int)
    requires WellFormed(t)
    ensures InBounds(t)
    ensures Find(t, key) == Some(val) <==> Stored(t, key, val)
  {
    var L :| Labelled(t, L);
    LabelledInBounds(t, L);
    SearchSound(t, To(t.root), key, t.height + 1);
    if Stored(t, key, val) {
      var q :| 0 <= q < |t.pages| && PageHas(t.pages[q], key, val);
      var i :| RecAt(t.pages[q], i, key, val);
      SearchComplete(t, L, q, i, key, val);
    }
  }
}
