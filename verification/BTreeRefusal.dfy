/**
 When mmp_bt_insert refuses a key: exactly which keys that are stored it stores a second time.
 */
module BTreeRefusal {
  import opened Status
  import opened BTreePages
  import opened BTreeShape
  import opened BTreeInsert
  import opened BTreeDescent
  import opened BTreeOutcome
  import opened BTreeRuns

  predicate FoundAt(pg: Page, key: int)
    requires 0 <= pg.n <= |pg.recs|
  {
    var i := Slot(pg, key);
    i < pg.n && pg.recs[i].key == key
  }

  /** Checked on the tree before the call: the way down to `key` leaves a full page by its last child,
      which the split of that page drops. */
  predicate Loses(t: Tree, p: nat, key: int, level: nat)
    requires InBounds(t) && p < |t.pages|
    decreases level
  {
    assert PageInBounds(t.R, |t.pages|, t.pages[p]);
    var pg, i := t.pages[p], Slot(t.pages[p], key);
    && !FoundAt(pg, key) && pg.recs[i].off.To?
    && ((pg.n >= t.R && i == pg.n) || (level > 0 && Loses(t, pg.recs[i].off.no, key, level - 1)))
  }

  /** The scans from page `p` down, had all full pages been split, come to the key. */
  predicate Refuses(t: Tree, p: nat, key: int, level: nat)
    requires InBounds(t) && p < |t.pages|
    decreases level
  {
    assert PageInBounds(t.R, |t.pages|, t.pages[p]);
    var pg, i := t.pages[p], Slot(t.pages[p], key);
    FoundAt(pg, key) ||
    (pg.recs[i].off.To? && !(pg.n >= t.R && i == pg.n) && level > 0 && Refuses(t, pg.recs[i].off.no, key, level - 1))
  }

  lemma {:induction false} RefusesIff(t: Tree, p: nat, key: int, level: nat)
    requires InBounds(t) && p < |t.pages|
    ensures Refuses(t, p, key, level) <==> Search(t, To(p), key, level + 1).Some? && !Loses(t, p, key, level)
    decreases level
  {
    assert PageInBounds(t.R, |t.pages|, t.pages[p]);
    var pg, i := t.pages[p], Slot(t.pages[p], key);
    if !FoundAt(pg, key) && pg.recs[i].off.To? && level > 0 { RefusesIff(t, pg.recs[i].off.no, key, level - 1); }
  }

  /** Only the pages below count. */
  lemma {:induction false} RefusesFrame(t: Tree, t': Tree, L: seq<Label>, c: nat, key: int, level: nat)
    requires InBounds(t) && InBounds(t') && |L| == |t.pages| <= |t'.pages| && c < |t.pages| && t'.R == t.R
    requires forall q :: 0 <= q < |t.pages| && L[q].level <= L[c].level ==>
      ZonePage(t, L, q) && t'.pages[q] == t.pages[q]
    ensures Refuses(t', c, key, level) == Refuses(t, c, key, level)
    decreases level
  {
    assert ZonePage(t, L, c) && PageInBounds(t.R, |t.pages|, t.pages[c]);
    var i := Slot(t.pages[c], key);
    if t.pages[c].recs[i].off.To? && level > 0 {
      assert ZoneChild(t, L, c, i);
      RefusesFrame(t, t', L, t.pages[c].recs[i].off.no, key, level - 1);
    }
  }

  // ---- the halves of a full page

  lemma SlotIs(pg: Page, key: int, i: nat)
    requires i <= pg.n <= |pg.recs|
    requires forall j :: 0 <= j < i ==> pg.recs[j].key < key
    requires i < pg.n ==> pg.recs[i].key >= key
    ensures Slot(pg, key) == i
  {
  }

  lemma LeftScan(R: nat, pg: Page, l: Label, par: nat, key: int)
    requires KeysOk(R, pg, l) && pg.n == R >= 1 && key < pg.recs[pg.n / 2].key
    ensures var left, i := LeftHalf(pg, par), Slot(pg, key);
      && 0 <= left.n < R && Slot(left, key) == i < pg.n && left.recs[i] == pg.recs[i]
      && FoundAt(left, key) == FoundAt(pg, key)
  {
    SlotIs(LeftHalf(pg, par), key, Slot(pg, key));
  }

  lemma RightScan(R: nat, pg: Page, l: Label, par: nat, key: int)
    requires KeysOk(R, pg, l) && pg.n == R >= 1 && key > pg.recs[pg.n / 2].key
    ensures var right, i := RightHalf(pg, par, R), Slot(pg, key);
      && 0 <= right.n < R && FoundAt(right, key) == FoundAt(pg, key)
      && if i < pg.n then right.recs[Slot(right, key)] == pg.recs[i] else right.recs[Slot(right, key)].off == Nil
  {
    var right, i, sp := RightHalf(pg, par, R), Slot(pg, key), pg.n / 2;
    assert forall j :: 0 <= j <= sp ==> pg.recs[j].key <= pg.recs[sp].key;
    assert i > sp;
    assert forall j :: 0 <= j < right.n ==> right.recs[j] == pg.recs[sp + 1 + j];
    SlotIs(right, key, i - (sp + 1));
  }

  /** Going on in a half of `p` is as good as going on in `p`. */
  lemma HalfRefuses(t: Tree, L: seq<Label>, p: nat, key: int, level: nat, to: nat, t': Tree)
    requires Zone(t, L, p, key) && CanSplit(t, p) && t' == Split(t, p).t && key != Sep(t, p).key
    requires to == (if key < Sep(t, p).key then p else |WithParent(t, p).0.pages|) && to < |t'.pages|
    ensures Refuses(t', to, key, level) == Refuses(t, p, key, level)
  {
    SplitPages(t, p);
    assert ZonePage(t, L, p) && PageInBounds(t.R, |t.pages|, t.pages[p]);
    assert PageInBounds(t'.R, |t'.pages|, t'.pages[to]);
    var pg, par, i := t.pages[p], Split(t, p).par, Slot(t.pages[p], key);
    if key < Sep(t, p).key { LeftScan(t.R, pg, L[p], par, key); } else { RightScan(t.R, pg, L[p], par, key); }
    if i < pg.n && pg.recs[i].off.To? && level > 0 { SubtreeRefuses(t, L, p, key, level - 1, i, t'); }
  }

  lemma SubtreeRefuses(t: Tree, L: seq<Label>, p: nat, key: int, level: nat, i: nat, t': Tree)
    requires Zone(t, L, p, key) && CanSplit(t, p) && t' == Split(t, p).t
    requires i <= t.pages[p].n < |t.pages[p].recs| && t.pages[p].recs[i].off.To?
    ensures var c := t.pages[p].recs[i].off.no;
      c < |t.pages| <= |t'.pages| && Refuses(t', c, key, level) == Refuses(t, c, key, level)
  {
    assert ZonePage(t, L, p);
    assert ZoneChild(t, L, p, i);
    var c := t.pages[p].recs[i].off.no;
    SplitPages(t, p);
    forall q | 0 <= q < |t.pages| && L[q].level <= L[c].level
      ensures ZonePage(t, L, q) && t'.pages[q] == t.pages[q]
    {
      BelowUntouched(t, L, p, key, q);
    }
    RefusesFrame(t, t', L, c, key, level);
  }

  /** The scan right after a split finds no key but the separator. */
  lemma StopIsSep(t: Tree, L: seq<Label>, p: nat, key: int)
    requires Zone(t, L, p, key) && CanSplit(t, p)
    ensures var s := Split(t, p);
      && 0 <= s.t.pages[s.par].n < |s.t.pages[s.par].recs|
      && (NotInPage(s.t.pages[s.par], key) <==> key != Sep(t, p).key)
  {
    SplitRoute(t, L, p, key);
    SplitPages(t, p);
    SepFound(t, L, p);
    var s := Split(t, p);
    var up, was := s.t.pages[s.par], WithParent(t, p).0.pages[s.par];
    var pos := Slot(was, Sep(t, p).key);
    InsertedKeys(was, Sep(t, p).key, Sep(t, p).val, To(p), To(|WithParent(t, p).0.pages|), pos);
    if key != Sep(t, p).key {
      forall i | 0 <= i < up.n
        ensures up.recs[i].key != key
      {
        assert i < pos ==> !Within(L[p], was.recs[i].key);
        assert i > pos ==> !Within(L[p], was.recs[i - 1].key);
      }
    }
  }

  lemma SepRefuses(t: Tree, L: seq<Label>, p: nat, level: nat)
    requires InBounds(t) && |L| == |t.pages| && p < |t.pages| && ZonePage(t, L, p) && t.pages[p].n == t.R
    ensures Refuses(t, p, Sep(t, p).key, level)
  {
    var pg := t.pages[p];
    SlotIs(pg, Sep(t, p).key, pg.n / 2);
  }

  // ---- a whole insertion

  ghost predicate RefusedNext(o: Outcome, key: int, level: nat, refuses: bool) {
    match o
    case Stop(_, ret) => ret == Params <==> refuses
    case Descend(t', to) => InBounds(t') && to < |t'.pages| && Refuses(t', to, key, level) == refuses
  }

  lemma RoomRefuses(t: Tree, L: seq<Label>, p: nat, key: int, val: int, level: nat)
    requires Zone(t, L, p, key) && t.pages[p].n < t.R && level >= L[p].level
    ensures level > 0 || Step(t, p, key, val).Stop?
    ensures RefusedNext(Step(t, p, key, val), key, if level == 0 then 0 else level - 1, Refuses(t, p, key, level))
  {
    assert ZonePage(t, L, p) && PageInBounds(t.R, |t.pages|, t.pages[p]);
    ActInZone(t, L, p, key, val);
  }

  lemma FullRefuses(t: Tree, L: seq<Label>, p: nat, key: int, val: int, level: nat)
    requires Zone(t, L, p, key) && CanSplit(t, p)
    ensures RefusedNext(Step(t, p, key, val), key, level, Refuses(t, p, key, level))
  {
    StopIsSep(t, L, p, key);
    FullAct(t, L, p, key, val);
    SplitPages(t, p);
    if key == Sep(t, p).key {
      assert ZonePage(t, L, p);
      SepRefuses(t, L, p, level);
    } else {
      SplitRoute(t, L, p, key);
      var o := Step(t, p, key, val);
      HalfRefuses(t, L, p, key, level, if key < Sep(t, p).key then p else |WithParent(t, p).0.pages|, o.t);
    }
  }

  lemma {:induction false} RunRefuses(t: Tree, L: seq<Label>, p: nat, key: int, val: int, fuel: nat, level: nat,
                                      goal: (Tree, Ret))
    requires OnTheWay(t, L, p, key, fuel) && Ready(t, L, p) && goal == Run(t, p, key, val, fuel)
    requires level >= L[p].level
    ensures goal.1 == Params <==> Refuses(t, p, key, level)
    decreases fuel
  {
    var o, L', next := Step(t, p, key, val), L, level;
    if t.pages[p].n < t.R {
      RoomPassed(t, L, p, key, val, fuel);
      RoomRefuses(t, L, p, key, val, level);
      next := if level == 0 then 0 else level - 1;
    } else {
      ReadySplits(t, L, p, key);
      FullRefuses(t, L, p, key, val, level);
      L' := FullPassed(t, L, p, key, val, fuel);
    }
    RunUnfolds(t, p, key, val, fuel, o, goal);
    if o.Descend? { RunRefuses(o.t, L', o.to, key, val, fuel - 1, next, goal); }
  }

  /** mmp_bt_insert refuses exactly the keys that are stored and that no split on the way loses. */
  lemma InsertRefusesIff(t: Tree, key: int, val: int)
    requires WellFormed(t)
    ensures InBounds(t)
    ensures Insert(t, key, val).1 == Params <==> (exists v :: Stored(t, key, v)) && !Loses(t, t.root, key, t.height)
  {
    var L :| Labelled(t, L);
    LabelledInBounds(t, L);
    assert LinkOk(t, L, t.root);
    LabelledZone(t, L, t.root, key);
    RootReady(t, L);
    RunRefuses(t, L, t.root, key, val, 2 * t.height + 2, t.height, Insert(t, key, val));
    RefusesIff(t, t.root, key, t.height);
    FoundIffStored(t, key);
  }

  lemma FoundIffStored(t: Tree, key: int)
    requires WellFormed(t)
    ensures InBounds(t) && (Find(t, key).Some? <==> exists v :: Stored(t, key, v))
  {
    FindIffStored(t, key, 0);
    if Find(t, key).Some? { FindIffStored(t, key, Find(t, key).value); }
    if v :| Stored(t, key, v) { FindIffStored(t, key, v); }
  }

  /** The smallest tree with such a key: with one key a page, key 2 behind key 1 is stored once more. */
  lemma SecondKeyTwice(val: int)
    ensures InBounds(TwoKeys()) && WellFormed(TwoKeys()) && Stored(TwoKeys(), 2, 20)
    ensures var (t, ret) := Insert(TwoKeys(), 2, val); ret == Ok && Stored(t, 2, 20) && Stored(t, 2, val)
  {
    TwoKeysOk();
    var t := TwoKeys();
    FindIffStored(t, 2, 20);
    assert Slot(t.pages[1], 2) == 1;
    InsertRefusesIff(t, 2, val);
    InsertTold(t, 2, val);
  }
}
