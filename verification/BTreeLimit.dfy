/**
 The exact limit of mmp_bt_insert: it keeps a B-tree a B-tree, and then does what it should,
 if and only if the descent splits nothing but the root leaf or a leaf that is a last child.
 */
module BTreeLimit {
  import opened Status
  import opened BTreePages
  import opened BTreeShape
  import opened BTreeInsert
  import opened BTreeDescent

  // ---- two kinds of damage

  /** A page with a child in slot `j` but none behind its last key. */
  ghost predicate Gap(t: Tree, q: nat, j: nat) {
    && q < |t.pages| && 0 <= t.pages[q].n < |t.pages[q].recs| && j < t.pages[q].n
    && t.pages[q].recs[j].off.To? && t.pages[q].recs[t.pages[q].n].off.Nil?
  }

  /** Two neighbours of which one has a first child and the other no last child. */
  ghost predicate Uneven(t: Tree, q: nat, j: nat, a: nat, b: nat) {
    && q < |t.pages| && a < |t.pages| && b < |t.pages|
    && j < t.pages[q].n < |t.pages[q].recs|
    && t.pages[q].recs[j].off == To(a) && t.pages[q].recs[j + 1].off == To(b)
    && 0 < |t.pages[a].recs| && t.pages[a].recs[0].off.To?
    && 0 <= t.pages[b].n < |t.pages[b].recs| && t.pages[b].recs[t.pages[b].n].off.Nil?
  }

  ghost predicate Damaged(t: Tree) {
    (exists q, j :: Gap(t, q, j)) || (exists q, j, a, b :: Uneven(t, q, j, a, b))
  }

  lemma NoGap(t: Tree, L: seq<Label>, q: nat, j: nat)
    requires Labelled(t, L)
    ensures !Gap(t, q, j)
  {
    if q < |t.pages| {
      assert PageOk(t, L, q);
      if L[q].level > 0 { assert ChildOk(t, L, q, t.pages[q].n); }
    }
  }

  lemma NotUneven(t: Tree, L: seq<Label>, q: nat, j: nat, a: nat, b: nat)
    requires Labelled(t, L)
    ensures !Uneven(t, q, j, a, b)
  {
    if q < |t.pages| && a < |t.pages| && b < |t.pages| {
      assert PageOk(t, L, q) && PageOk(t, L, a) && PageOk(t, L, b);
      if L[q].level > 0 && j < t.pages[q].n { assert ChildOk(t, L, q, j) && ChildOk(t, L, q, j + 1); }
      if L[b].level > 0 { assert ChildOk(t, L, b, t.pages[b].n); }
    }
  }

  lemma DamagedIsNoTree(t: Tree)
    requires Damaged(t)
    ensures !WellFormed(t)
  {
    forall L: seq<Label> | Labelled(t, L)
      ensures false
    {
      if q: nat, j: nat :| Gap(t, q, j) {
        NoGap(t, L, q, j);
      } else {
        var q: nat, j: nat, a: nat, b: nat :| Uneven(t, q, j, a, b);
        NotUneven(t, L, q, j, a, b);
      }
    }
  }

  // ---- splitting a leaf that is not a last child drops the parent's last child

  lemma InnerLeafGap(t: Tree, L: seq<Label>, p: nat)
    requires Labelled(t, L) && InBounds(t) && p < |t.pages| && L[p].level == 0 && p != t.root && t.pages[p].n == t.R
    requires !IsLastChild(t, p) && LinkOk(t, L, p) && t.pages[t.pages[p].parent.no].n < t.R
    ensures CanSplit(t, p) && Gap(Split(t, p).t, t.pages[p].parent.no, L[p].slot)
      && Split(t, p).par == t.pages[p].parent.no
  {
    var P := t.pages[p].parent.no;
    assert PageOk(t, L, p) && PageOk(t, L, P);
    SplitPages(t, p);
    HalvesKeysOk(t.R, t.pages[p], L[p], P);
    RouteUp(t, L, p, Sep(t, p).key);
    var was, up, pos := t.pages[P], Split(t, p).t.pages[P], L[p].slot;
    assert pos != was.n;
    assert up.recs[pos].off == To(p);
    assert up.recs[was.n + 1] == was.recs[was.n + 1];
  }

  lemma InnerLeafDamages(t: Tree, L: seq<Label>, p: nat, key: int, val: int, fuel: nat, t': Tree)
    requires Labelled(t, L) && InBounds(t) && p < |t.pages| && L[p].level == 0 && p != t.root && t.pages[p].n == t.R
    requires !IsLastChild(t, p) && LinkOk(t, L, p) && t.pages[t.pages[p].parent.no].n < t.R && Within(L[p], key)
    requires t' == Run(t, p, key, val, fuel).0
    ensures Damaged(t')
  {
    InnerLeafGap(t, L, p);
    LabelledZone(t, L, p, key);
    var L' := StepInZone(t, L, p, key, val);
    FullAct(t, L, p, key, val);
    SplitPages(t, p);
    var o, P := Step(t, p, key, val), t.pages[p].parent.no;
    if o.Descend? && fuel > 0 {
      RunFrameRoom(o.t, L', o.to, key, val, fuel - 1, t');
      assert L'[P] == L[P];
    }
    assert Gap(t', P, L[p].slot);
  }

  // ---- splitting an inner page drops the right half's last child

  lemma InnerPageUneven(t: Tree, L: seq<Label>, p: nat)
    requires Labelled(t, L) && InBounds(t) && p < |t.pages| && L[p].level > 0 && t.pages[p].n == t.R && CanSplit(t, p)
    requires PageOk(t, L, p) && Zone(t, L, p, Sep(t, p).key)
    ensures var s, nu := Split(t, p), |WithParent(t, p).0.pages|;
      exists j :: Uneven(s.t, s.par, j, p, nu)
  {
    SplitPages(t, p);
    SplitRoute(t, L, p, Sep(t, p).key);
    var s, nu := Split(t, p), |WithParent(t, p).0.pages|;
    assert ChildOk(t, L, p, 0);
    var pos, up := Slot(WithParent(t, p).0.pages[s.par], Sep(t, p).key), s.t.pages[s.par];
    assert up.recs[pos].off == To(p);
    assert up.recs[pos + 1].off == To(nu);
    assert s.t.pages[p].recs[0].off.To?;
    assert Uneven(s.t, s.par, pos, p, nu);
  }

  /** The halves `a` and `b` as the split left them: below `a` every slot has a child, below `b`
      every slot but the last, and all children call `a` their parent. */
  ghost predicate Halves(t: Tree, a: nat, b: nat)
    requires InBounds(t) && a < |t.pages| && b < |t.pages|
  {
    && a != b && PageInBounds(t.R, |t.pages|, t.pages[a]) && PageInBounds(t.R, |t.pages|, t.pages[b])
    && (forall i :: 0 <= i <= t.pages[a].n ==>
        t.pages[a].recs[i].off.To? && t.pages[t.pages[a].recs[i].off.no].parent == To(a))
    && (forall i :: 0 <= i < t.pages[b].n ==>
        t.pages[b].recs[i].off.To? && t.pages[t.pages[b].recs[i].off.no].parent == To(a))
  }

  ghost predicate UnevenOnTheWay(t: Tree, L: seq<Label>, q: nat, j: nat, a: nat, b: nat, p: nat, key: int) {
    && Uneven(t, q, j, a, b) && Zone(t, L, p, key) && t.pages[p].n < t.R && (p == a || p == b) && Halves(t, a, b)
    && L[q].level > L[p].level && L[a].level == L[b].level == L[p].level
  }

  lemma UnevenAfterStop(t: Tree, L: seq<Label>, q: nat, j: nat, a: nat, b: nat, p: nat, key: int, val: int)
    requires UnevenOnTheWay(t, L, q, j, a, b, p, key) && Act(t, p, key, val).Stop?
    ensures Uneven(Act(t, p, key, val).t, q, j, a, b)
  {
    ActInZone(t, L, p, key, val);
    if NotInPage(t.pages[p], key) {
      assert p == b && Slot(t.pages[b], key) == t.pages[b].n;
    }
  }

  lemma UnevenKept(t: Tree, t': Tree, q: nat, j: nat, a: nat, b: nat)
    requires Uneven(t, q, j, a, b) && |t.pages| <= |t'.pages| && t'.pages[q] == t.pages[q] && t'.pages[b] == t.pages[b]
    requires |t'.pages[a].recs| == |t.pages[a].recs| && t'.pages[a].recs[0].off.To?
    ensures Uneven(t', q, j, a, b)
  {
  }

  /** The rest of the run below the half. */
  lemma UnevenBelow(t: Tree, L: seq<Label>, q: nat, j: nat, a: nat, b: nat, p: nat, key: int, val: int, fuel: nat)
    requires UnevenOnTheWay(t, L, q, j, a, b, p, key) && Act(t, p, key, val).Descend?
    ensures var c := Act(t, p, key, val).to; c < |t.pages| && Uneven(Run(t, c, key, val, fuel).0, q, j, a, b)
  {
    ActInZone(t, L, p, key, val);
    var c := Act(t, p, key, val).to;
    assert t.pages[c].parent == To(a);
    var t' := Run(t, c, key, val, fuel).0;
    RunFrame(t, L, c, key, val, fuel, t');
    UnevenKept(t, t', q, j, a, b);
  }

  /** One pass in the half the key belongs to, then the rest below it: the damage stays. */
  lemma UnevenStays(t: Tree, L: seq<Label>, q: nat, j: nat, a: nat, b: nat, p: nat, key: int, val: int, fuel: nat,
                    t': Tree)
    requires UnevenOnTheWay(t, L, q, j, a, b, p, key)
    requires t' == Run(t, p, key, val, fuel).0
    ensures Uneven(t', q, j, a, b)
  {
    var o := Act(t, p, key, val);
    if o.Stop? {
      UnevenAfterStop(t, L, q, j, a, b, p, key, val);
    } else if fuel > 0 {
      UnevenBelow(t, L, q, j, a, b, p, key, val, fuel - 1);
    }
  }

  lemma SplitHalves(t: Tree, L: seq<Label>, p: nat)
    requires Labelled(t, L) && InBounds(t) && p < |t.pages| && L[p].level > 0 && t.pages[p].n == t.R && CanSplit(t, p)
    requires PageOk(t, L, p)
    requires t.pages[p].parent.To? ==> t.pages[p].parent.no < |t.pages| && L[t.pages[p].parent.no].level > L[p].level
    ensures Halves(Split(t, p).t, p, |WithParent(t, p).0.pages|)
  {
    SplitPages(t, p);
    var t', nu, sp, pg := Split(t, p).t, |WithParent(t, p).0.pages|, t.pages[p].n / 2, t.pages[p];
    assert PageInBounds(t'.R, |t'.pages|, t'.pages[p]) && PageInBounds(t'.R, |t'.pages|, t'.pages[nu]);
    forall i | 0 <= i <= pg.n
      ensures pg.recs[i].off.To? && t'.pages[pg.recs[i].off.no].parent == To(p)
    {
      assert ChildOk(t, L, p, i);
    }
    assert forall i :: 0 <= i < t'.pages[nu].n ==> t'.pages[nu].recs[i] == pg.recs[sp + 1 + i];
  }

  /** The split of an inner page, and the scan that follows it. */
  lemma InnerPageStep(t: Tree, L: seq<Label>, p: nat, key: int, val: int)
    returns (L': seq<Label>, par: nat, j: nat, nu: nat)
    requires Labelled(t, L) && InBounds(t) && p < |t.pages| && L[p].level > 0 && t.pages[p].n == t.R
      && Within(L[p], key)
    requires p != t.root ==> LinkOk(t, L, p) && t.pages[t.pages[p].parent.no].n < t.R
    ensures var o := Step(t, p, key, val);
      && Uneven(o.t, par, j, p, nu)
      && (o.Descend? ==> UnevenOnTheWay(o.t, L', par, j, p, nu, o.to, key))
  {
    assert PageOk(t, L, p) && LinkOk(t, L, p);
    HalvesKeysOk(t.R, t.pages[p], L[p], 0);
    LabelledZone(t, L, p, key);
    LabelledZone(t, L, p, Sep(t, p).key);
    InnerPageUneven(t, L, p);
    FullAct(t, L, p, key, val);
    var s := Split(t, p);
    par, nu := s.par, |WithParent(t, p).0.pages|;
    j :| Uneven(s.t, par, j, p, nu);
    SplitHalves(t, L, p);
    SplitRoute(t, L, p, key);
    L' := StepInZone(t, L, p, key, val);
    SplitLevels(t, L, p);
  }

  lemma SplitLevels(t: Tree, L: seq<Label>, p: nat)
    requires InBounds(t) && |L| == |t.pages| && p < |t.pages| && CanSplit(t, p)
    requires t.pages[p].parent.To? ==> L[t.pages[p].parent.no].level > L[p].level
    ensures var L', par, nu := SplitLabels(t, L, p), Split(t, p).par, |WithParent(t, p).0.pages|;
      nu < |L'| && par < |L'| && L'[p].level == L'[nu].level == L[p].level && L'[par].level > L[p].level
  {
    SplitPages(t, p);
  }

  lemma UnevenOutcome(o: Outcome, L': seq<Label>, q: nat, j: nat, a: nat, b: nat, key: int, val: int, fuel: nat,
                      t': Tree)
    requires Uneven(o.t, q, j, a, b) && (o.Descend? ==> UnevenOnTheWay(o.t, L', q, j, a, b, o.to, key))
    requires Continues(o, key, val, fuel, t')
    ensures Uneven(t', q, j, a, b)
  {
    if o.Descend? && fuel > 0 {
      UnevenStays(o.t, L', q, j, a, b, o.to, key, val, fuel - 1, t');
    }
  }

  lemma InnerPageDamages(t: Tree, L: seq<Label>, p: nat, key: int, val: int, fuel: nat, t': Tree)
    requires Labelled(t, L) && InBounds(t) && p < |t.pages| && L[p].level > 0 && t.pages[p].n == t.R
      && Within(L[p], key)
    requires p != t.root ==> LinkOk(t, L, p) && t.pages[t.pages[p].parent.no].n < t.R
    requires t' == Run(t, p, key, val, fuel).0
    ensures Damaged(t')
  {
    RunContinues(t, p, key, val, fuel, t');
    var L', par, j, nu := InnerPageStep(t, L, p, key, val);
    UnevenOutcome(Step(t, p, key, val), L', par, j, p, nu, key, val, fuel, t');
  }

  // ---- the exact condition

  lemma {:induction false} UnsafeDamages(t: Tree, L: seq<Label>, p: nat, key: int, val: int, fuel: nat, t': Tree)
    requires Labelled(t, L) && InBounds(t) && p < |t.pages| && Within(L[p], key)
    requires !SafeDescent(t, p, key, L[p].level) && fuel >= L[p].level
    requires p != t.root ==> LinkOk(t, L, p) && t.pages[t.pages[p].parent.no].n < t.R
    requires t' == Run(t, p, key, val, fuel).0
    ensures Damaged(t')
    decreases L[p].level
  {
    assert PageOk(t, L, p) && LinkOk(t, L, p);
    var pg := t.pages[p];
    if L[p].level == 0 {
      InnerLeafDamages(t, L, p, key, val, fuel, t');
    } else if pg.n == t.R {
      InnerPageDamages(t, L, p, key, val, fuel, t');
    } else {
      assert ChildOk(t, L, p, 0);
      Route(t, L, p, key);
      var c := pg.recs[Slot(pg, key)].off.no;
      assert LinkOk(t, L, c);
      UnsafeDamages(t, L, c, key, val, fuel - 1, t');
    }
  }

  /** From any B-tree, for any key: mmp_bt_insert leaves a B-tree that maps what it should if and
      only if the descent is safe, and otherwise leaves no B-tree at all. */
  lemma InsertCorrectIff(t: Tree, key: int, val: int)
    requires WellFormed(t)
    ensures InBounds(t)
    ensures SafeDescent(t, t.root, key, t.height) <==> Correct(t, key, val, Insert(t, key, val))
    ensures SafeDescent(t, t.root, key, t.height) <==> WellFormed(Insert(t, key, val).0)
  {
    var L :| Labelled(t, L);
    LabelledInBounds(t, L);
    RunCorrectIff(t, L, key, val, Insert(t, key, val));
  }

  lemma RunCorrectIff(t: Tree, L: seq<Label>, key: int, val: int, r: (Tree, Ret))
    requires Labelled(t, L) && InBounds(t) && r == Run(t, t.root, key, val, 2 * t.height + 2)
    ensures SafeDescent(t, t.root, key, t.height) ==> Correct(t, key, val, r)
    ensures WellFormed(r.0) ==> SafeDescent(t, t.root, key, t.height)
  {
    assert LinkOk(t, L, t.root);
    if SafeDescent(t, t.root, key, t.height) {
      RunCorrect(t, L, t.root, key, val, 2 * t.height + 2);
    } else {
      UnsafeDamages(t, L, t.root, key, val, 2 * t.height + 2, r.0);
      DamagedIsNoTree(r.0);
    }
  }

  /** The same in terms of mmp_bt_search: after a safe insertion it finds the new value under the
      new key and, under every other key, what it found before. */
  lemma InsertThenFind(t: Tree, key: int, val: int, k: int)
    requires WellFormed(t) && InBounds(t) && SafeDescent(t, t.root, key, t.height)
    ensures var (t', ret) := Insert(t, key, val);
      && WellFormed(t') && InBounds(t')
      && (ret == Ok <==> Find(t, key).None?) && (ret == Params <==> Find(t, key).Some?)
      && Find(t', k) == if ret == Ok && k == key then Some(val) else Find(t, k)
  {
    InsertCorrectIff(t, key, val);
    var (t', ret) := Insert(t, key, val);
    FindOnlyStored(t, key);
    FindOnlyStored(t, k);
    FindOnlyStored(t', k);
    assert Find(t, key).Some? ==> Stored(t, key, Find(t, key).value);
    assert Find(t, k).Some? ==> Stored(t, k, Find(t, k).value);
    assert Find(t', k).Some? ==> Stored(t', k, Find(t', k).value);
    assert ret == Ok && k == key ==> Stored(t', k, val);
    assert !(ret == Ok && k == key) && Find(t, k).Some? ==> Stored(t', k, Find(t, k).value);
  }

  lemma FindOnlyStored(t: Tree, key: int)
    requires WellFormed(t)
    ensures InBounds(t)
    ensures forall v :: Find(t, key) == Some(v) <==> Stored(t, key, v)
  {
    FindIffStored(t, key, 0);
    forall v
      ensures Find(t, key) == Some(v) <==> Stored(t, key, v)
    {
      FindIffStored(t, key, v);
    }
  }
}
