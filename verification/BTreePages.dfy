/**
 The B-tree of src/mmp_btree.c as a value: the pages of the file, addressed by page number
 instead of by file offset.  Every function here is one static function of the C file (or one
 pass of a `reloop`), so the class in BTree.dfy is proved to compute exactly these.
 */
module BTreePages {
  import opened Status

  /** A file offset: INVALID_OFF, or the offset of a page given by its number. */
  datatype Link = Nil | To(no: nat)

  datatype Rec = Rec(off: Link, key: int, val: int)

  /** `n` is n_el; the child to the right of the last key sits in the `off` field of slot `n`. */
  datatype Page = Page(n: int, parent: Link, recs: seq<Rec>)

  /** `R` is the number of keys a page may hold; `height` counts the root splits so far. */
  datatype Tree = Tree(R: nat, height: nat, root: nat, pages: seq<Page>)

  /** What every run keeps so that no access leaves a page: counts, slots and links in range. */
  ghost predicate InBounds(t: Tree) {
    && 1 <= t.R
    && t.root < |t.pages|
    && forall q :: 0 <= q < |t.pages| ==> PageInBounds(t.R, |t.pages|, t.pages[q])
  }

  ghost predicate PageInBounds(R: nat, count: nat, pg: Page) {
    && 0 <= pg.n <= R
    && |pg.recs| == R + 1
    && LinkInBounds(count, pg.parent)
    && forall i :: 0 <= i <= R ==> LinkInBounds(count, pg.recs[i].off)
  }

  predicate LinkInBounds(count: nat, l: Link) {
    l.To? ==> l.no < count
  }

  /** Where a scan for `key` stops: the first slot whose key is not smaller, or slot `n`. */
  function Slot(pg: Page, key: int, from: nat := 0): (i: nat)
    requires from <= pg.n <= |pg.recs|
    ensures from <= i <= pg.n
    ensures forall j :: from <= j < i ==> pg.recs[j].key < key
    ensures i < pg.n ==> pg.recs[i].key >= key
    decreases pg.n - from
  {
    if from < pg.n && pg.recs[from].key < key then Slot(pg, key, from + 1) else from
  }

  /** pg_insert_in_pos: shifts `n - pos` records, so the `off` of the old slot `n` is lost unless pos == n. */
  function InsertInPos(pg: Page, key: int, val: int, off1: Link, off2: Link, pos: nat): (r: Page)
    requires pos <= pg.n < |pg.recs|
  {
    Page(pg.n + 1, pg.parent,
         seq(|pg.recs|, i requires 0 <= i < |pg.recs| =>
           if i == pos then Rec(off1, key, val)
           else if i == pos + 1 then pg.recs[if pos < pg.n then pos else i].(off := off2)
           else if pos + 1 < i <= pg.n then pg.recs[i - 1]
           else pg.recs[i]))
  }

  /** pg_insert: a key that is already there leaves the page alone. */
  function InsertInPage(pg: Page, key: int, val: int, off1: Link, off2: Link): (r: Page)
    requires 0 <= pg.n < |pg.recs|
  {
    var i := Slot(pg, key);
    if i < pg.n && pg.recs[i].key == key then pg else InsertInPos(pg, key, val, off1, off2, i)
  }

  /** A page fresh from the zero-filled file, with every offset invalid. */
  function EmptyPage(R: nat): (pg: Page)
    ensures pg.n == 0 && |pg.recs| == R + 1
  {
    Page(0, Nil, seq(R + 1, _ => Rec(Nil, 0, 0)))
  }

  datatype SplitResult = Refused | Done(t: Tree, par: nat)

  /** pg_split refuses a page that is not full, and one whose parent is full. */
  predicate CanSplit(t: Tree, p: nat)
    requires p < |t.pages| && LinkInBounds(|t.pages|, t.pages[p].parent)
  {
    var pg := t.pages[p];
    pg.n >= t.R && (pg.parent.To? ==> t.pages[pg.parent.no].n < t.R)
  }

  /** The parent pg_split works on: a page without one gets a new, empty root. */
  function WithParent(t: Tree, p: nat): (r: (Tree, nat))
    requires p < |t.pages|
  {
    match t.pages[p].parent
    case To(par) => (t, par)
    case Nil => (t.(pages := t.pages + [EmptyPage(t.R)], root := |t.pages|, height := t.height + 1), |t.pages|)
  }

  function LeftHalf(pg: Page, par: nat): Page {
    pg.(n := pg.n / 2, parent := To(par))
  }

  /** Copies n - (sp + 1) records, so the `off` of the old slot `n` does not come along. */
  function RightHalf(pg: Page, par: nat, R: nat): (r: Page)
    requires 1 <= pg.n <= R && |pg.recs| == R + 1
    ensures |r.recs| == R + 1
  {
    var sp := pg.n / 2;
    Page(pg.n - (sp + 1), To(par), pg.recs[sp + 1..pg.n] + EmptyPage(R).recs[pg.n - (sp + 1)..])
  }

  function Split(t: Tree, p: nat): (s: SplitResult)
    requires InBounds(t) && p < |t.pages|
    ensures s.Refused? <==> !CanSplit(t, p)
    ensures s.Done? ==> InBounds(s.t) && s.par < |s.t.pages| && p < |s.t.pages|
  {
    if !CanSplit(t, p) then Refused else
    var pg := t.pages[p];
    var (t1, par) := WithParent(t, p);
    var sep := pg.recs[pg.n / 2];
    var up := InsertInPage(t1.pages[par], sep.key, sep.val, To(p), To(|t1.pages|));
    var left, right := LeftHalf(pg, par), RightHalf(pg, par, t.R);
    SplitStaysInBounds(t, p);
    Done(t1.(pages := t1.pages[par := up][p := left] + [right]), par)
  }

  lemma SplitStaysInBounds(t: Tree, p: nat)
    requires InBounds(t) && p < |t.pages| && CanSplit(t, p)
    ensures var (t1, par) := WithParent(t, p);
      var pg, R, count := t.pages[p], t.R, |t1.pages| + 1;
      && par < |t1.pages| && p < |t1.pages| && t1.root < count && t1.R == R
      && 0 <= t1.pages[par].n < R && |t1.pages[par].recs| == R + 1
      && pg.n / 2 < |pg.recs|
      && (forall q :: 0 <= q < |t1.pages| ==> PageInBounds(R, count, t1.pages[q]))
      && PageInBounds(R, count, LeftHalf(pg, par))
      && PageInBounds(R, count, RightHalf(pg, par, R))
      && var sep := pg.recs[pg.n / 2];
         PageInBounds(R, count, InsertInPage(t1.pages[par], sep.key, sep.val, To(p), To(count - 1)))
  {
    var (t1, par) := WithParent(t, p);
    var pg, R, count := t.pages[p], t.R, |t1.pages| + 1;
    assert PageInBounds(R, |t.pages|, pg);
    forall q | 0 <= q < |t1.pages|
      ensures PageInBounds(R, count, t1.pages[q])
    {
      if q < |t.pages| { assert PageInBounds(R, |t.pages|, t.pages[q]); }
    }
    var sep := pg.recs[pg.n / 2];
    InsertStaysInBounds(R, count, t1.pages[par], sep.key, sep.val, To(p), To(count - 1));
  }

  lemma InsertStaysInBounds(R: nat, count: nat, pg: Page, key: int, val: int, off1: Link, off2: Link)
    requires PageInBounds(R, count, pg) && pg.n < R
    requires LinkInBounds(count, off1) && LinkInBounds(count, off2)
    ensures PageInBounds(R, count, InsertInPage(pg, key, val, off1, off2))
  {
  }

  datatype Outcome = Descend(t: Tree, to: nat) | Stop(t: Tree, ret: Ret)

  /** The scan of one page in mmp_bt_insert: stop at an equal key, go down, or insert in the leaf. */
  function Act(t: Tree, p: nat, key: int, val: int): (o: Outcome)
    requires InBounds(t) && p < |t.pages|
    ensures InBounds(o.t)
    ensures o.Descend? ==> o.t == t && o.to < |t.pages|
  {
    assert PageInBounds(t.R, |t.pages|, t.pages[p]);
    var pg := t.pages[p];
    var i := Slot(pg, key);
    if i < pg.n && pg.recs[i].key == key then Stop(t, Params)
    else match pg.recs[i].off
      case To(c) => Descend(t, c)
      case Nil =>
        if pg.n < t.R then
          assert PageInBounds(t.R, |t.pages|, InsertInPos(pg, key, val, Nil, Nil, i));
          Stop(t.(pages := t.pages[p := InsertInPos(pg, key, val, Nil, Nil, i)]), Ok)
        else Stop(t, Generic)  // never taken on the way down a B-tree: see FullAct in BTreeDescent.dfy
  }

  /** One pass of the `reloop` of mmp_bt_insert; after a split the scan goes on in the parent. */
  function Step(t: Tree, p: nat, key: int, val: int): (o: Outcome)
    requires InBounds(t) && p < |t.pages|
    ensures InBounds(o.t)
    ensures o.Descend? ==> o.to < |o.t.pages|
  {
    if t.pages[p].n < t.R then Act(t, p, key, val)
    else match Split(t, p)
      case Refused => Stop(t, Generic)
      case Done(t', par) => Act(t', par, key, val)
  }

  /** `fuel` bounds the passes. */
  function Run(t: Tree, p: nat, key: int, val: int, fuel: nat): (r: (Tree, Ret))
    requires InBounds(t) && p < |t.pages|
    ensures InBounds(r.0)
    decreases fuel
  {
    match Step(t, p, key, val)
    case Stop(t', ret) => (t', ret)
    case Descend(t', c) => if fuel == 0 then (t', Generic) else Run(t', c, key, val, fuel - 1)
  }

  /** mmp_bt_insert.  Each level takes at most two passes, so on a B-tree the fuel is never used up:
      BTree.Insert has no fuel. */
  function Insert(t: Tree, key: int, val: int): (r: (Tree, Ret))
    requires InBounds(t)
    ensures InBounds(r.0)
  {
    Run(t, t.root, key, val, 2 * t.height + 2)
  }

  /** mmp_bt_search from page `l` down. */
  function Search(t: Tree, l: Link, key: int, fuel: nat): (r: Option<int>)
    requires InBounds(t) && LinkInBounds(|t.pages|, l)
    decreases fuel
  {
    if l.Nil? || fuel == 0 then None else
    var pg := t.pages[l.no];
    var i := Slot(pg, key);
    if i < pg.n && pg.recs[i].key == key then Some(pg.recs[i].val)
    else Search(t, pg.recs[i].off, key, fuel - 1)
  }

  function Find(t: Tree, key: int): Option<int>
    requires InBounds(t)
  {
    Search(t, To(t.root), key, t.height + 1)
  }
}
