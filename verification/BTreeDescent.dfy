/**
 What holds on the way down an insertion, whether or not the splits done so far were harmless:
 enough to stay inside the pages, and to show that a harmful split is never repaired.
 */
module BTreeDescent {
  import opened Status
  import opened BTreePages
  import opened BTreeShape
  import opened BTreeInsert

  ghost predicate NoKeyWithin(pg: Page, l: Label) {
    forall i :: 0 <= i < pg.n && i < |pg.recs| ==> !Within(l, pg.recs[i].key)
  }

  /** A child on the way has the interval of its slot; the page it names as parent may be the left
      neighbour of the page it hangs from (moved children keep their parent), but has no key inside it. */
  ghost predicate ZoneChild(t: Tree, L: seq<Label>, q: nat, j: nat)
    requires |L| == |t.pages| && q < |t.pages| && j < |t.pages[q].recs|
  {
    var pg := t.pages[q];
    pg.recs[j].off.To? ==>
      var c := pg.recs[j].off.no;
      && c < |t.pages|
      && L[c].level + 1 == L[q].level
      && L[c].lo == Lo(pg, L[q], j) && L[c].hi == Hi(pg, L[q], j)
      && t.pages[c].parent.To?
      && t.pages[c].parent.no < |t.pages|
      && L[t.pages[c].parent.no].level == L[q].level
      && NoKeyWithin(t.pages[t.pages[c].parent.no], L[c])
  }

  ghost predicate ZonePage(t: Tree, L: seq<Label>, q: nat)
    requires |L| == |t.pages| && q < |t.pages|
  {
    && KeysOk(t.R, t.pages[q], L[q])
    && (L[q].level == 0 ==> Childless(t.pages[q]))
    && (L[q].level > 0 ==> forall j :: 0 <= j <= t.pages[q].n ==> ZoneChild(t, L, q, j))
  }

  ghost predicate EntryOk(t: Tree, L: seq<Label>, p: nat)
    requires |L| == |t.pages| && p < |t.pages|
  {
    match t.pages[p].parent
    case Nil => true
    case To(P) => P < |t.pages| && L[P].level > L[p].level && NoKeyWithin(t.pages[P], L[p])
  }

  /** The insertion of `key` has reached page `p`. */
  ghost predicate Zone(t: Tree, L: seq<Label>, p: nat, key: int) {
    && InBounds(t) && |L| == |t.pages| && p < |t.pages|
    && Within(L[p], key) && EntryOk(t, L, p)
    && forall q :: 0 <= q < |t.pages| && L[q].level <= L[p].level ==> ZonePage(t, L, q)
  }

  lemma LabelledZone(t: Tree, L: seq<Label>, p: nat, key: int)
    requires Labelled(t, L) && InBounds(t) && p < |t.pages| && Within(L[p], key)
    ensures Zone(t, L, p, key)
  {
    forall q | 0 <= q < |t.pages|
      ensures ZonePage(t, L, q)
    {
      assert PageOk(t, L, q);
      if L[q].level > 0 {
        forall j | 0 <= j <= t.pages[q].n
          ensures ZoneChild(t, L, q, j)
        {
          assert ChildOk(t, L, q, j);
        }
      }
    }
    assert LinkOk(t, L, p);
    if p != t.root {
      assert PageOk(t, L, t.pages[p].parent.no);
      assert ChildOk(t, L, t.pages[p].parent.no, L[p].slot);
    }
  }

  // ---- a page with room

  /** The scan of a page with room goes down inside the zone, or stops inside the pages. */
  lemma ActInZone(t: Tree, L: seq<Label>, p: nat, key: int, val: int)
    requires Zone(t, L, p, key) && t.pages[p].n < t.R
    ensures var o := Act(t, p, key, val);
      && InBounds(o.t)
      && (o.Stop? ==> forall q :: 0 <= q < |t.pages| && q != p ==> q < |o.t.pages| && o.t.pages[q] == t.pages[q])
      && (o.Descend? ==> Zone(t, L, o.to, key) && L[o.to].level + 1 == L[p].level && t.pages[o.to].parent.To?
                         && L[t.pages[o.to].parent.no].level == L[p].level)
  {
    assert ZonePage(t, L, p);
    var pg, i := t.pages[p], Slot(t.pages[p], key);
    if NotInPage(pg, key) {
      if pg.recs[i].off.To? {
        assert ZoneChild(t, L, p, i);
      } else {
        assert PageInBounds(t.R, |t.pages|, pg);
        InsertStaysInBounds(t.R, |t.pages|, pg, key, val, Nil, Nil);
      }
    }
  }

  // ---- a full page

  ghost function SplitLabels(t: Tree, L: seq<Label>, p: nat): seq<Label>
    requires InBounds(t) && |L| == |t.pages| && p < |t.pages|
  {
    var sep := Sep(t, p).key;
    L[p := LeftLabel(L[p], sep)]
    + (if t.pages[p].parent.Nil? then [Label(L[p].level + 1, None, None, 0)] else [])
    + [RightLabel(L[p], sep)]
  }

  /** The pages pg_split leaves behind, one by one. */
  lemma SplitPages(t: Tree, p: nat)
    requires InBounds(t) && p < |t.pages| && CanSplit(t, p)
    ensures var (t1, par) := WithParent(t, p);
      var s, sep, nu := Split(t, p), Sep(t, p), |t1.pages|;
      && s.par == par != p && par < nu && |s.t.pages| == nu + 1
      && s.t.R == t.R && s.t.root == t1.root && s.t.height == t1.height
      && 0 <= t1.pages[par].n < |t1.pages[par].recs|
      && s.t.pages[par] == InsertInPage(t1.pages[par], sep.key, sep.val, To(p), To(nu))
      && s.t.pages[p] == LeftHalf(t.pages[p], par)
      && t.pages[p].n == t.R && |t.pages[p].recs| == t.R + 1
      && s.t.pages[nu] == RightHalf(t.pages[p], par, t.R)
      && forall q :: 0 <= q < |t.pages| && q != p && q != par ==> s.t.pages[q] == t.pages[q]
  {
    SplitStaysInBounds(t, p);
    assert PageInBounds(t.R, |t.pages|, t.pages[p]);
  }

  /** The separator goes to the parent's slot for `key`, so the next scan takes one of the halves. */
  lemma SplitRoute(t: Tree, L: seq<Label>, p: nat, key: int)
    requires Zone(t, L, p, key) && CanSplit(t, p)
    ensures var s, nu := Split(t, p), |WithParent(t, p).0.pages|;
      && 0 <= s.t.pages[s.par].n < |s.t.pages[s.par].recs|
      && var up, i := s.t.pages[s.par], Slot(s.t.pages[s.par], key);
        && (NotInPage(up, key) ==> up.recs[i].off == To(if key < Sep(t, p).key then p else nu))
        && var pos := Slot(WithParent(t, p).0.pages[s.par], Sep(t, p).key);
           pos < up.n && up == InsertInPos(WithParent(t, p).0.pages[s.par], Sep(t, p).key, Sep(t, p).val, To(p),
             To(nu), pos)
  {
    SplitPages(t, p);
    assert ZonePage(t, L, p);
    HalvesKeysOk(t.R, t.pages[p], L[p], Split(t, p).par);
    var (t1, par) := WithParent(t, p);
    var sep, nu, was := Sep(t, p), |t1.pages|, t1.pages[par];
    var pos := Slot(was, sep.key);
    assert NotInPage(was, sep.key);
    RouteToHalf(was, L[p], sep, p, nu, key);
  }

  lemma RouteToHalf(was: Page, l: Label, sep: Rec, p: nat, nu: nat, key: int)
    requires 0 <= was.n < |was.recs| - 1 && NoKeyWithin(was, l) && Within(l, sep.key) && Within(l, key)
    ensures var pos := Slot(was, sep.key);
      var up := InsertInPos(was, sep.key, sep.val, To(p), To(nu), pos);
      && NotInPage(was, sep.key)
      && (NotInPage(up, key) ==> up.recs[Slot(up, key)].off == To(if key < sep.key then p else nu))
  {
    var pos := Slot(was, sep.key);
    var up := InsertInPos(was, sep.key, sep.val, To(p), To(nu), pos);
    assert up.recs[pos] == Rec(To(p), sep.key, sep.val) && up.recs[pos + 1].off == To(nu);
    forall i | 0 <= i < pos
      ensures up.recs[i].key < key
    {
      assert up.recs[i] == was.recs[i];
    }
    if pos < was.n { assert up.recs[pos + 1].key == was.recs[pos].key > key; }
  }

  /** Nothing the zone says about another page of it is touched by the split. */
  lemma SplitZoneOther(t: Tree, L: seq<Label>, p: nat, key: int, q: nat)
    requires Zone(t, L, p, key) && CanSplit(t, p)
    requires q < |t.pages| && q != p && L[q].level <= L[p].level
    ensures var t', L' := Split(t, p).t, SplitLabels(t, L, p);
      |L'| == |t'.pages| && q < |t'.pages| && ZonePage(t', L', q)
  {
    SplitPages(t, p);
    var t', L' := Split(t, p).t, SplitLabels(t, L, p);
    assert ZonePage(t, L, q);
    assert t'.pages[q] == t.pages[q];
    if L[q].level > 0 {
      forall j | 0 <= j <= t.pages[q].n
        ensures ZoneChild(t', L', q, j)
      {
        assert ZoneChild(t, L, q, j);
      }
    }
  }

  lemma SplitZoneLeft(t: Tree, L: seq<Label>, p: nat, key: int)
    requires Zone(t, L, p, key) && CanSplit(t, p)
    ensures var t', L' := Split(t, p).t, SplitLabels(t, L, p);
      |L'| == |t'.pages| && p < |t'.pages| && ZonePage(t', L', p)
  {
    SplitPages(t, p);
    var t', L', pg := Split(t, p).t, SplitLabels(t, L, p), t.pages[p];
    assert ZonePage(t, L, p);
    LeftKeysOk(t.R, pg, L[p], Split(t, p).par);
    if L[p].level > 0 {
      forall j | 0 <= j <= t'.pages[p].n
        ensures ZoneChild(t', L', p, j)
      {
        assert ZoneChild(t, L, p, j);
      }
    }
  }

  /** Slot `j` of the right half is slot `i` of the page, with the same interval. */
  lemma RightSlot(pg: Page, l: Label, par: nat, R: nat, j: nat)
    requires 1 <= pg.n <= R && |pg.recs| == R + 1 && j <= pg.n - (pg.n / 2 + 1)
    ensures var right, l', i := RightHalf(pg, par, R), RightLabel(l, pg.recs[pg.n / 2].key), pg.n / 2 + 1 + j;
      if j < right.n then right.recs[j] == pg.recs[i] && Lo(right, l', j) == Lo(pg, l, i)
        && Hi(right, l', j) == Hi(pg, l, i)
      else right.recs[j].off == Nil
  {
    var right := RightHalf(pg, par, R);
    assert j > 0 ==> right.recs[j - 1] == pg.recs[pg.n / 2 + j];
  }

  lemma SplitZoneRightChild(t: Tree, L: seq<Label>, p: nat, key: int, j: nat)
    requires Zone(t, L, p, key) && CanSplit(t, p) && L[p].level > 0 && ZonePage(t, L, p)
    requires j <= t.pages[p].n - (t.pages[p].n / 2 + 1)
    ensures var t', L', nu := Split(t, p).t, SplitLabels(t, L, p), |WithParent(t, p).0.pages|;
      |L'| == |t'.pages| && nu < |t'.pages| && j < |t'.pages[nu].recs| && ZoneChild(t', L', nu, j)
  {
    SplitPages(t, p);
    var t', nu, pg := Split(t, p).t, |WithParent(t, p).0.pages|, t.pages[p];
    RightSlot(pg, L[p], Split(t, p).par, t.R, j);
    if j < t'.pages[nu].n {
      assert ZoneChild(t, L, p, pg.n / 2 + 1 + j);
    }
  }

  lemma SplitZoneRight(t: Tree, L: seq<Label>, p: nat, key: int)
    requires Zone(t, L, p, key) && CanSplit(t, p)
    ensures var t', L', nu := Split(t, p).t, SplitLabels(t, L, p), |WithParent(t, p).0.pages|;
      |L'| == |t'.pages| && nu < |t'.pages| && ZonePage(t', L', nu)
  {
    SplitPages(t, p);
    assert ZonePage(t, L, p);
    RightKeysOk(t.R, t.pages[p], L[p], Split(t, p).par);
    var right := Split(t, p).t.pages[|WithParent(t, p).0.pages|];
    if L[p].level > 0 {
      forall j | 0 <= j <= right.n
        ensures j < |right.recs| && ZoneChild(Split(t, p).t, SplitLabels(t, L, p), |WithParent(t, p).0.pages|, j)
      {
        SplitZoneRightChild(t, L, p, key, j);
      }
    }
  }

  /** After a split the insertion goes on in one of the halves, which has room. */
  lemma SplitZone(t: Tree, L: seq<Label>, p: nat, key: int)
    requires Zone(t, L, p, key) && CanSplit(t, p) && key != Sep(t, p).key
    ensures var t', L', to :=
        Split(t, p).t, SplitLabels(t, L, p), if key < Sep(t, p).key then p else |WithParent(t, p).0.pages|;
      Zone(t', L', to, key) && L'[to].level == L[p].level && t'.pages[to].n < t'.R
        && t'.pages[to].parent == To(Split(t, p).par)
  {
    SplitPages(t, p);
    var t', L', par, nu := Split(t, p).t, SplitLabels(t, L, p), Split(t, p).par, |WithParent(t, p).0.pages|;
    SplitZoneLeft(t, L, p, key);
    SplitZoneRight(t, L, p, key);
    forall q | 0 <= q < |t'.pages| && L'[q].level <= L[p].level
      ensures ZonePage(t', L', q)
    {
      if q < |t.pages| && q != p { SplitZoneOther(t, L, p, key, q); }
    }
    SplitRoute(t, L, p, key);
    SplitEntry(t, L, p, key);
  }

  lemma SplitEntry(t: Tree, L: seq<Label>, p: nat, key: int)
    requires Zone(t, L, p, key) && CanSplit(t, p)
    ensures var t', L', par, nu := Split(t, p).t, SplitLabels(t, L, p), Split(t, p).par, |WithParent(t, p).0.pages|;
      && |L'| == |t'.pages| && nu < |t'.pages| && EntryOk(t', L', p) && EntryOk(t', L', nu)
  {
    SplitPages(t, p);
    SplitRoute(t, L, p, key);
    var t', L', par, sep := Split(t, p).t, SplitLabels(t, L, p), Split(t, p).par, Sep(t, p);
    var was, pos := WithParent(t, p).0.pages[par], Slot(WithParent(t, p).0.pages[par], sep.key);
    forall i | 0 <= i < t'.pages[par].n
      ensures !Within(LeftLabel(L[p], sep.key), t'.pages[par].recs[i].key)
      ensures !Within(RightLabel(L[p], sep.key), t'.pages[par].recs[i].key)
    {
      assert t'.pages[par].recs[i].key ==
        if i < pos then was.recs[i].key else if i == pos then sep.key else was.recs[i - 1].key;
    }
  }

  /** Each pass of the insertion either stops inside the pages or goes on inside a zone: one level
      down, or on the same level in a page with room. */
  lemma StepInZone(t: Tree, L: seq<Label>, p: nat, key: int, val: int) returns (L': seq<Label>)
    requires Zone(t, L, p, key)
    ensures var o := Step(t, p, key, val);
      && InBounds(o.t)
      && (o.Descend? ==>
            && Zone(o.t, L', o.to, key) && o.t.pages[o.to].parent.To?
            && if t.pages[p].n < t.R then L' == L && o.t == t && L[o.to].level + 1 == L[p].level
                                          && L[t.pages[o.to].parent.no].level == L[p].level
               else L' == SplitLabels(t, L, p) && CanSplit(t, p) && o.t == Split(t, p).t
                    && L'[o.to].level == L[p].level && o.t.pages[o.to].n < t.R)
  {
    L' := L;
    if t.pages[p].n < t.R {
      ActInZone(t, L, p, key, val);
    } else if CanSplit(t, p) {
      SplitRoute(t, L, p, key);
      SplitPages(t, p);
      var s := Split(t, p);
      if NotInPage(s.t.pages[s.par], key) && key != Sep(t, p).key {
        SplitZone(t, L, p, key);
        L' := SplitLabels(t, L, p);
      } else {
        SepFound(t, L, p);
      }
    }
  }

  lemma SepFound(t: Tree, L: seq<Label>, p: nat)
    requires InBounds(t) && p < |t.pages| && CanSplit(t, p)
    requires var s, nu := Split(t, p), |WithParent(t, p).0.pages|;
      && 0 <= s.t.pages[s.par].n < |s.t.pages[s.par].recs|
      && var pos := Slot(WithParent(t, p).0.pages[s.par], Sep(t, p).key);
         pos < s.t.pages[s.par].n && s.t.pages[s.par] == InsertInPos(WithParent(t, p).0.pages[s.par], Sep(t, p).key,
           Sep(t, p).val, To(p), To(nu), pos)
    ensures var up := Split(t, p).t.pages[Split(t, p).par]; !NotInPage(up, Sep(t, p).key)
  {
    var s := Split(t, p);
    var was, up, pos := WithParent(t, p).0.pages[s.par], s.t.pages[s.par],
      Slot(WithParent(t, p).0.pages[s.par], Sep(t, p).key);
    assert forall i :: 0 <= i < pos ==> up.recs[i] == was.recs[i];
    assert up.recs[pos].key == Sep(t, p).key;
  }

  /** What is left of a run after its first pass. */
  ghost predicate Continues(o: Outcome, key: int, val: int, fuel: nat, t': Tree) {
    if o.Descend? && fuel > 0
    then InBounds(o.t) && o.to < |o.t.pages| && t' == Run(o.t, o.to, key, val, fuel - 1).0
    else t' == o.t
  }

  lemma {:induction false} RunContinues(t: Tree, p: nat, key: int, val: int, fuel: nat, t': Tree)
    requires InBounds(t) && p < |t.pages| && t' == Run(t, p, key, val, fuel).0
    ensures Continues(Step(t, p, key, val), key, val, fuel, t')
  {
  }

  /** The rest of an insertion below a page with room leaves the pages above alone. */
  lemma {:induction false} RunFrameRoom(t: Tree, L: seq<Label>, p: nat, key: int, val: int, fuel: nat, t': Tree)
    requires Zone(t, L, p, key) && t.pages[p].n < t.R
    requires t' == Run(t, p, key, val, fuel).0
    ensures InBounds(t') && |t.pages| <= |t'.pages|
    ensures forall q :: 0 <= q < |t.pages| && L[q].level > L[p].level ==> t'.pages[q] == t.pages[q]
    decreases fuel, 0
  {
    ActInZone(t, L, p, key, val);
    var o := Act(t, p, key, val);
    RunContinues(t, p, key, val, fuel, t');
    if o.Descend? && fuel > 0 {
      RunFrame(t, L, o.to, key, val, fuel - 1, t');
    }
  }

  /** What a run below page `p` may do to a page: leave it, or, to the parent of a full `p`, add a
      record whose first child stays a child. */
  ghost predicate Framed(t: Tree, L: seq<Label>, p: nat, t': Tree)
    requires |L| == |t.pages| && p < |t.pages| && t.pages[p].parent.To?
  {
    var P := t.pages[p].parent.no;
    && InBounds(t') && |t.pages| <= |t'.pages| && P < |t.pages|
    && (forall q :: 0 <= q < |t.pages| && L[q].level > L[p].level && q != P ==> t'.pages[q] == t.pages[q])
    && |t'.pages[P].recs| == |t.pages[P].recs| == t.R + 1
    && (t.pages[P].recs[0].off.To? ==> t'.pages[P].recs[0].off.To?)
  }

  lemma {:induction false} RunFrame(t: Tree, L: seq<Label>, p: nat, key: int, val: int, fuel: nat, t': Tree)
    requires Zone(t, L, p, key) && t.pages[p].parent.To?
    requires t' == Run(t, p, key, val, fuel).0
    ensures Framed(t, L, p, t')
    decreases fuel, 1
  {
    assert PageInBounds(t.R, |t.pages|, t.pages[t.pages[p].parent.no]);
    if t.pages[p].n < t.R {
      RunFrameRoom(t, L, p, key, val, fuel, t');
    } else {
      RunContinues(t, p, key, val, fuel, t');
      var L' := FullStep(t, L, p, key, val);
      RunFrameFull(t, L, p, key, val, fuel, L', Step(t, p, key, val), t');
    }
  }

  /** The split of `p`, then a run that leaves everything above `p` alone. */
  lemma FrameCompose(t: Tree, L: seq<Label>, p: nat, L': seq<Label>, level: nat, t2: Tree, t': Tree)
    requires InBounds(t) && |L| == |t.pages| && p < |t.pages| && t.pages[p].parent.To?
      && t.pages[p].parent.no < |t.pages|
    requires L[t.pages[p].parent.no].level > L[p].level == level
    requires |t.pages| <= |t2.pages| <= |L'| && forall q :: 0 <= q < |t.pages| && q != p ==> L'[q] == L[q]
    requires SplitFramed(t, p, t2)
    requires InBounds(t') && |t2.pages| <= |t'.pages|
    requires forall q :: 0 <= q < |t2.pages| && L'[q].level > level ==> t'.pages[q] == t2.pages[q]
    ensures Framed(t, L, p, t')
  {
  }

  ghost predicate SplitFramed(t: Tree, p: nat, t2: Tree)
    requires p < |t.pages| <= |t2.pages| && t.pages[p].parent.To? && t.pages[p].parent.no < |t.pages|
  {
    var P := t.pages[p].parent.no;
    && |t2.pages[P].recs| == |t.pages[P].recs| == t.R + 1
    && (forall q :: 0 <= q < |t.pages| && q != P && q != p ==> t2.pages[q] == t.pages[q])
    && (t.pages[P].recs[0].off.To? ==> t2.pages[P].recs[0].off.To?)
  }

  /** What a pass that starts at a full page leaves, as far as the pages above are concerned. */
  ghost predicate FullStepped(t: Tree, L: seq<Label>, p: nat, key: int, L': seq<Label>, o: Outcome)
    requires |L| == |t.pages| && p < |t.pages|
  {
    && t.pages[p].parent.To? && t.pages[p].parent.no < |t.pages| && L[t.pages[p].parent.no].level > L[p].level
    && |t.pages[t.pages[p].parent.no].recs| == t.R + 1
    && InBounds(t) && InBounds(o.t)
    && (o.t == t || (|t.pages| <= |o.t.pages| && SplitFramed(t, p, o.t)))
    && (o.Descend? ==>
          && |t.pages| <= |o.t.pages| && SplitFramed(t, p, o.t)
          && Zone(o.t, L', o.to, key) && o.t.pages[o.to].n < o.t.R && L'[o.to].level == L[p].level
          && forall q :: 0 <= q < |t.pages| && q != p ==> L'[q] == L[q])
  }

  lemma FullStep(t: Tree, L: seq<Label>, p: nat, key: int, val: int) returns (L': seq<Label>)
    requires Zone(t, L, p, key) && t.pages[p].parent.To? && t.pages[p].n >= t.R
    ensures FullStepped(t, L, p, key, L', Step(t, p, key, val))
  {
    assert PageInBounds(t.R, |t.pages|, t.pages[t.pages[p].parent.no]);
    L' := StepInZone(t, L, p, key, val);
    if CanSplit(t, p) {
      SplitFrame(t, L, p, key);
      FullAct(t, L, p, key, val);
    }
  }

  lemma {:induction false} RunFrameFull(t: Tree, L: seq<Label>, p: nat, key: int, val: int, fuel: nat, L': seq<Label>,
                                        o: Outcome, t': Tree)
    requires |L| == |t.pages| && p < |t.pages| && FullStepped(t, L, p, key, L', o)
    requires Continues(o, key, val, fuel, t')
    ensures Framed(t, L, p, t')
    decreases fuel, 0
  {
    if o.Descend? && fuel > 0 {
      RunFrameRoom(o.t, L', o.to, key, val, fuel - 1, t');
      FrameCompose(t, L, p, L', L[p].level, o.t, t');
    }
  }

  lemma SplitFrame(t: Tree, L: seq<Label>, p: nat, key: int)
    requires Zone(t, L, p, key) && t.pages[p].parent.To? && CanSplit(t, p)
    ensures |Split(t, p).t.pages| == |t.pages| + 1 && SplitFramed(t, p, Split(t, p).t)
  {
    SplitPages(t, p);
    SplitRoute(t, L, p, key);
    assert PageInBounds(t.R, |t.pages|, t.pages[t.pages[p].parent.no]);
  }

  /** The scan right after a split inserts nothing. */
  lemma FullAct(t: Tree, L: seq<Label>, p: nat, key: int, val: int)
    requires Zone(t, L, p, key) && CanSplit(t, p) && t.pages[p].n >= t.R
    ensures var o := Step(t, p, key, val); o.t == Split(t, p).t && (o.Stop? ==> o.ret == Params)
  {
    SplitRoute(t, L, p, key);
  }

  // ---- enough passes

  /** The insertion has reached page `p` with passes to spare: two for each level below, and one for a split here. */
  ghost predicate OnTheWay(t: Tree, L: seq<Label>, p: nat, key: int, fuel: nat) {
    Zone(t, L, p, key) && fuel >= 2 * L[p].level + if t.pages[p].n < t.R then 1 else 2
  }

  lemma StartOfDescent(t: Tree, key: int) returns (L: seq<Label>)
    requires WellFormed(t)
    ensures InBounds(t) && OnTheWay(t, L, t.root, key, 2 * t.height + 2)
  {
    L :| Labelled(t, L);
    LabelledInBounds(t, L);
    assert LinkOk(t, L, t.root);
    LabelledZone(t, L, t.root, key);
  }

  ghost predicate Linked<A, B>(link: (A, B, A) -> bool, xs: seq<A>, ys: seq<B>) {
    |xs| == |ys| >= 1 && forall i :: 0 <= i < |xs| - 1 ==> link(xs[i], ys[i], xs[i + 1])
  }

  lemma LinkedCons<A, B>(link: (A, B, A) -> bool, x: A, y: B, xs: seq<A>, ys: seq<B>)
    requires Linked(link, xs, ys) && link(x, y, xs[0])
    ensures Linked(link, [x] + xs, [y] + ys)
  {
    var xs', ys' := [x] + xs, [y] + ys;
    forall i | 0 <= i < |xs'| - 1
      ensures link(xs'[i], ys'[i], xs'[i + 1])
    {
      if i > 0 { assert link(xs[i - 1], ys[i - 1], xs[i]); }
    }
  }

  /** The passes of one insertion, each in its zone; only the last one stops. */
  ghost predicate Passes(os: seq<Outcome>, Ls: seq<seq<Label>>, key: int, val: int) {
    Linked((o, L, next) => PassOk(o, L, key, val, next), os, Ls) && os[|os| - 1].Stop?
  }

  ghost predicate PassOk(o: Outcome, L: seq<Label>, key: int, val: int, next: Outcome) {
    o.Descend? && Zone(o.t, L, o.to, key) && next == Step(o.t, o.to, key, val)
  }

  lemma PassOnTheWay(t: Tree, L: seq<Label>, p: nat, key: int, val: int, fuel: nat, o: Outcome) returns (L': seq<Label>)
    requires OnTheWay(t, L, p, key, fuel) && o == Step(t, p, key, val)
    ensures fuel > 0 && (o.Descend? ==> OnTheWay(o.t, L', o.to, key, fuel - 1))
  {
    L' := StepInZone(t, L, p, key, val);
  }

  lemma {:induction false} RunUnfolds(t: Tree, p: nat, key: int, val: int, fuel: nat, o: Outcome, goal: (Tree, Ret))
    requires InBounds(t) && p < |t.pages| && fuel > 0 && goal == Run(t, p, key, val, fuel) && o == Step(t, p, key, val)
    ensures goal == if o.Stop? then (o.t, o.ret) else Run(o.t, o.to, key, val, fuel - 1)
  {
  }

  /** The passes with which an insertion that has come to page `p` reaches its end. */
  lemma {:induction false} RunPasses(t: Tree, L: seq<Label>, p: nat, key: int, val: int, fuel: nat, goal: (Tree, Ret))
    returns (os: seq<Outcome>, Ls: seq<seq<Label>>)
    requires OnTheWay(t, L, p, key, fuel) && goal == Run(t, p, key, val, fuel)
    ensures Passes(os, Ls, key, val) && os[0] == Descend(t, p) && os[|os| - 1] == Stop(goal.0, goal.1)
    decreases fuel
  {
    var o := Step(t, p, key, val);
    var L' := PassOnTheWay(t, L, p, key, val, fuel, o);
    RunUnfolds(t, p, key, val, fuel, o, goal);
    if o.Descend? {
      os, Ls := RunPasses(o.t, L', o.to, key, val, fuel - 1, goal);
    } else {
      os, Ls := [o], [L'];
    }
    LinkedCons((o, L, next) => PassOk(o, L, key, val, next), Descend(t, p), L, os, Ls);
    os, Ls := [Descend(t, p)] + os, [L] + Ls;
  }

  /** The passes of mmp_bt_insert on a B-tree. */
  lemma InsertPasses(t: Tree, key: int, val: int) returns (os: seq<Outcome>, Ls: seq<seq<Label>>)
    requires WellFormed(t)
    ensures InBounds(t) && Passes(os, Ls, key, val) && os[0] == Descend(t, t.root)
    ensures os[|os| - 1] == Stop(Insert(t, key, val).0, Insert(t, key, val).1)
  {
    var L := StartOfDescent(t, key);
    os, Ls := RunPasses(t, L, t.root, key, val, 2 * t.height + 2, Insert(t, key, val));
  }
}
