/**
 src/mmp_btree.c: pages in memory, addressed by file offset and changed in place.  Each method is
 proved to compute the function of the same step in BTreePages.dfy.
 */
module BTree {
  import opened Status
  import P = BTreePages
  import S = BTreeShape
  import D = BTreeDescent
  import O = BTreeOutcome

  const INVALID_OFF := 1

  /** sizeof(t_rec_s): three 32-bit ints. */
  const REC_SIZE := 12

  datatype Rec = Rec(off: int, key: int, val: int)

  class Page {
    const recs: array<Rec>
    var nEl: int
    var parent: Page?
    var off: int
    /** The page's index in `pgoff`. */
    ghost const no: nat

    /** create_empty_pg and initialize_page: the file hands out zeroes, and every offset is set invalid. */
    constructor (R: nat, pgOff: int, ghost no: nat)
      ensures fresh(recs) && recs.Length == R + 1
      ensures nEl == 0 && parent == null && off == pgOff && this.no == no
      ensures forall i :: 0 <= i <= R ==> recs[i] == Rec(INVALID_OFF, 0, 0)
    {
      var mem := new Rec[R + 1](_ => Rec(0, 0, 0));
      recs, nEl, parent, off := mem, 0, null, pgOff;
      this.no := no;
      new;
      for i := 0 to R + 1
        modifies recs
        invariant forall j :: 0 <= j < i ==> recs[j] == Rec(INVALID_OFF, 0, 0)
        invariant forall j :: i <= j <= R ==> recs[j] == Rec(0, 0, 0)
      {
        recs[i] := recs[i].(off := INVALID_OFF);
      }
    }

    ghost predicate Valid()
      reads this, recs
    {
      0 <= nEl <= recs.Length && forall i :: 0 <= i < recs.Length ==> 0 <= recs[i].off
    }

    /** The page as a value: offsets become page numbers. */
    ghost function State(pgsize: nat): P.Page
      requires pgsize > 0
      reads this, recs
    {
      P.Page(nEl, if parent == null then P.Nil else P.To(parent.no),
             seq(recs.Length, i requires 0 <= i < recs.Length reads recs => RecState(recs[i], pgsize)))
    }
  }

  ghost function LinkState(off: int, pgsize: nat): P.Link
    requires pgsize > 0
  {
    if off == INVALID_OFF || off < 0 then P.Nil else P.To(off / pgsize)
  }

  ghost function RecState(r: Rec, pgsize: nat): P.Rec
    requires pgsize > 0
  {
    P.Rec(LinkState(r.off, pgsize), r.key, r.val)
  }

  lemma OffsetOfPage(no: nat, pgsize: nat)
    requires pgsize > 1
    ensures LinkState(no * pgsize, pgsize) == P.To(no) && no * pgsize >= 0
  {
    assert no * pgsize != 1 by {
      if no >= 1 { assert no * pgsize >= pgsize; }
    }
    DivOfProduct(no, pgsize);
  }

  lemma DivOfProduct(n: nat, d: nat)
    requires d > 0
    ensures n * d / d == n
  {
    var q, r := n * d / d, n * d % d;
    assert (n - q) * d == r;
    MultipleBeyond(n - q, d);
  }

  lemma MultipleBeyond(k: int, d: nat)
    ensures (k >= 1 ==> k * d >= d) && (k <= -1 ==> k * d <= 0 - d)
  {
  }

  /** The scan both searches use: the first slot whose key is not smaller than `key`. */
  method Scan(pg: Page, key: int, ghost pgsize: nat) returns (i: nat)
    requires pg.Valid() && pgsize > 0
    ensures i <= pg.nEl && i == P.Slot(pg.State(pgsize), key)
  {
    i := 0;
    while i < pg.nEl && pg.recs[i].key < key
      invariant 0 <= i <= pg.nEl
      invariant P.Slot(pg.State(pgsize), key) == P.Slot(pg.State(pgsize), key, i)
    {
      i := i + 1;
    }
  }

  /** pg_insert_in_pos */
  method InsertInPos(pg: Page, key: int, val: int, off1: int, off2: int, pos: nat, ghost pgsize: nat)
    requires pg.Valid() && pgsize > 0 && off1 >= 0 && off2 >= 0
    requires pos <= pg.nEl < pg.recs.Length - 1
    modifies pg`nEl, pg.recs
    ensures pg.Valid()
    ensures pg.State(pgsize) ==
      P.InsertInPos(old(pg.State(pgsize)), key, val, LinkState(off1, pgsize), LinkState(off2, pgsize), pos)
  {
    ghost var was := pg.State(pgsize);
    forall i | pos <= i < pg.nEl {
      pg.recs[i + 1] := pg.recs[i];
    }
    pg.recs[pos] := Rec(off1, key, val);
    pg.recs[pos + 1] := pg.recs[pos + 1].(off := off2);
    pg.nEl := pg.nEl + 1;
    ShiftedState(was, pg.State(pgsize), key, val, LinkState(off1, pgsize), LinkState(off2, pgsize), pos);
  }

  lemma ShiftedState(was: P.Page, now: P.Page, key: int, val: int, off1: P.Link, off2: P.Link, pos: nat)
    requires pos <= was.n < |was.recs| - 1 && |now.recs| == |was.recs| && now.n == was.n + 1 && now.parent == was.parent
    requires forall i :: 0 <= i < pos ==> now.recs[i] == was.recs[i]
    requires now.recs[pos] == P.Rec(off1, key, val)
    requires now.recs[pos + 1] == was.recs[if pos < was.n then pos else pos + 1].(off := off2)
    requires forall i :: pos + 1 < i <= was.n ==> now.recs[i] == was.recs[i - 1]
    requires forall i :: was.n < i < |was.recs| && i != pos + 1 ==> now.recs[i] == was.recs[i]
    ensures now == P.InsertInPos(was, key, val, off1, off2, pos)
  {
    assert now.recs == P.InsertInPos(was, key, val, off1, off2, pos).recs;
  }

  /** pg_insert */
  method InsertInPage(pg: Page, key: int, val: int, off1: int, off2: int, ghost pgsize: nat) returns (ret: Ret)
    requires pg.Valid() && pgsize > 0 && off1 >= 0 && off2 >= 0
    requires pg.nEl < pg.recs.Length - 1
    modifies pg`nEl, pg.recs
    ensures pg.Valid()
    ensures var was := old(pg.State(pgsize)); var i := P.Slot(was, key);
      ret == if i < was.n && was.recs[i].key == key then Params else Ok
    ensures pg.State(pgsize) ==
      P.InsertInPage(old(pg.State(pgsize)), key, val, LinkState(off1, pgsize), LinkState(off2, pgsize))
  {
    var i := Scan(pg, key, pgsize);
    if i < pg.nEl && pg.recs[i].key == key {
      return Params;
    }
    InsertInPos(pg, key, val, off1, off2, i, pgsize);
    return Ok;
  }

  lemma HalfState(bro: Page, full: P.Page, par: nat, R: nat, pgsize: nat)
    requires pgsize > 0 && R >= 1 && full.n == R && |full.recs| == R + 1 == bro.recs.Length
    requires bro.parent != null && bro.parent.no == par && bro.nEl == full.n - (full.n / 2 + 1)
    requires forall i :: 0 <= i < bro.nEl ==> RecState(bro.recs[i], pgsize) == full.recs[full.n / 2 + 1 + i]
    requires forall i :: bro.nEl <= i <= R ==> RecState(bro.recs[i], pgsize) == P.Rec(P.Nil, 0, 0)
    ensures bro.State(pgsize) == P.RightHalf(full, par, R)
  {
    assert bro.State(pgsize).recs == P.RightHalf(full, par, R).recs;
  }

  /** The copying half of pg_split: memcpy of the records behind the separator. */
  method CopyUpperHalf(pg: Page, bro: Page, par: Page, ghost R: nat, ghost pgsize: nat)
    requires pg != bro && pg.recs != bro.recs && pgsize > 0 && R >= 1
    requires pg.Valid() && pg.nEl == R && pg.recs.Length == R + 1 && bro.State(pgsize) == P.EmptyPage(R) && bro.Valid()
    modifies bro`parent, bro`nEl, bro.recs
    ensures bro.Valid() && bro.parent == par && |pg.State(pgsize).recs| == R + 1
    ensures bro.State(pgsize) == P.RightHalf(pg.State(pgsize), par.no, R)
  {
    ghost var full := pg.State(pgsize);
    forall i | 0 <= i <= R
      ensures RecState(bro.recs[i], pgsize) == P.Rec(P.Nil, 0, 0)
    {
      assert bro.State(pgsize).recs[i] == P.EmptyPage(R).recs[i];
    }
    var sp := pg.nEl / 2;
    bro.parent := par;
    forall i | 0 <= i < pg.nEl - (sp + 1) {
      bro.recs[i] := pg.recs[sp + 1 + i];
    }
    bro.nEl := pg.nEl - (sp + 1);
    assert pg.State(pgsize) == full;
    HalfState(bro, full, par.no, R, pgsize);
  }

  class BTree {
    const R: nat
    const pgsize: nat
    var root: Page
    var pgoff: seq<Page>
    /** How often the root was split. */
    ghost var height: nat

    ghost function Repr(): set<object>
      reads this
    {
      {this} + (set p | p in pgoff :: p as object) + (set p | p in pgoff :: p.recs as object)
    }

    ghost predicate PageValid(i: nat)
      requires i < |pgoff|
      reads this, Repr()
    {
      var p := pgoff[i];
      assert p in pgoff;
      && p.no == i && p.off == i * pgsize && p.recs.Length == R + 1 && p.Valid()
      && (p.parent != null ==> p.parent.no < |pgoff| && pgoff[p.parent.no] == p.parent)
    }

    /** Page `i` sits at offset `i * pgsize`, the page memories are disjoint, and parent pointers
        stay in the tree.  Whether this is a B-tree is a question about Abs(). */
    ghost predicate Valid()
      reads Repr()
    {
      && R >= 1 && pgsize / REC_SIZE - 1 == R
      && root in pgoff
      && (forall i :: 0 <= i < |pgoff| ==> PageValid(i))
      && (forall i, j :: 0 <= i < j < |pgoff| ==> pgoff[i].recs != pgoff[j].recs)
      && P.InBounds(Abs())
    }

    ghost function States(): seq<P.Page>
      requires pgsize > 0
      reads Repr()
    {
      seq(|pgoff|, i requires 0 <= i < |pgoff| reads Repr() => assert pgoff[i] in pgoff; pgoff[i].State(pgsize))
    }

    /** The tree as a value. */
    ghost function Abs(): P.Tree
      requires pgsize > 0
      reads Repr()
    {
      P.Tree(R, height, root.no, States())
    }

    /** mmp_bt_create on an empty file. */
    constructor (pageSize: nat)
      requires pageSize / REC_SIZE >= 2
      ensures Valid() && fresh(Repr())
      ensures R == pageSize / REC_SIZE - 1 && Abs() == P.Tree(R, 0, 0, [P.EmptyPage(R)])
    {
      R, pgsize := pageSize / REC_SIZE - 1, pageSize;
      var pg := new Page(pageSize / REC_SIZE - 1, 0, 0);
      root, pgoff, height := pg, [pg], 0;
      new;
      assert pg.State(pgsize).recs == P.EmptyPage(R).recs;
      assert States() == [P.EmptyPage(R)];
      assert P.PageInBounds(R, 1, P.EmptyPage(R));
    }

    /** create_and_insert_pg: the file grows by one page of zeroes. */
    method CreatePage() returns (pg: Page)
      requires Valid()
      modifies this`pgoff
      ensures fresh(pg) && fresh(pg.recs) && pgoff == old(pgoff) + [pg] && pg.no == |old(pgoff)|
      ensures Valid() && pg.nEl == 0 && pg.parent == null
      ensures Abs() == old(Abs()).(pages := old(Abs()).pages + [P.EmptyPage(R)])
    {
      ghost var was := Abs();
      pg := new Page(R, |pgoff| * pgsize, |pgoff|);
      ghost var n := |pgoff|;
      pgoff := pgoff + [pg];
      forall i | 0 <= i <= n
        ensures PageValid(i)
      {
        if i < n {
          assert pgoff[i] == old(pgoff[i]) && old(PageValid(i));
        } else {
          assert pgoff[i] == pg;
        }
      }
      assert pg.State(pgsize).recs == P.EmptyPage(R).recs;
      assert pg.State(pgsize) == P.EmptyPage(R);
      assert forall i :: 0 <= i < |was.pages| ==> pgoff[i] == old(pgoff)[i];
      assert States() == was.pages + [P.EmptyPage(R)];
      GrownInBounds(was, P.EmptyPage(R));
    }

    /** page_from_off */
    method PageFromOff(off: int) returns (pg: Page?)
      requires Valid() && off >= 0 && P.LinkInBounds(|pgoff|, LinkState(off, pgsize))
      ensures Valid() && Abs() == old(Abs())
      ensures match LinkState(off, pgsize)
        case Nil => pg == null
        case To(no) => pg != null && pg in pgoff && pg.no == no
    {
      if off == INVALID_OFF { return null; }
      pg := pgoff[off / pgsize];
      assert PageValid(off / pgsize);
    }

    /** A record goes into one page of the tree. */
    method InsertInto(pg: Page, key: int, val: int, off1: int, off2: int) returns (ret: Ret)
      requires Valid() && pg in pgoff && pg.nEl < R && off1 >= 0 && off2 >= 0
      requires P.LinkInBounds(|pgoff|, LinkState(off1, pgsize)) && P.LinkInBounds(|pgoff|, LinkState(off2, pgsize))
      modifies pg`nEl, pg.recs
      ensures Valid() && pg.no < |pgoff| && pgoff[pg.no] == pg
      ensures Replaced(old(Abs()), Abs(), pg.no)
      ensures 0 <= old(Abs()).pages[pg.no].n < |old(Abs()).pages[pg.no].recs|
      ensures Abs().pages[pg.no] ==
        P.InsertInPage(old(Abs()).pages[pg.no], key, val, LinkState(off1, pgsize), LinkState(off2, pgsize))
    {
      ghost var was := Abs();
      InPgoff(this, pg);
      ret := InsertInPage(pg, key, val, off1, off2, pgsize);
      P.InsertStaysInBounds(R, |was.pages|, was.pages[pg.no], key, val, LinkState(off1, pgsize),
        LinkState(off2, pgsize));
      forall j | 0 <= j < |pgoff|
        ensures PageValid(j)
        ensures States()[j] == if j == pg.no then pg.State(pgsize) else was.pages[j]
      {
        assert old(PageValid(j));
      }
      OneStateInBounds(was, Abs(), pg.no);
    }

    /** The second half of pg_split: the records behind the separator move to `bro`, byte for byte;
        what their offsets point to is not told. */
    method MoveUpperHalf(pg: Page, bro: Page, par: Page)
      requires Valid() && pg in pgoff && bro in pgoff && par in pgoff && pg != bro
      requires pg.nEl == R && bro.State(pgsize) == P.EmptyPage(R)
      modifies pg`parent, pg`nEl, bro`parent, bro`nEl, bro.recs
      ensures Valid() && pg.no < |pgoff| && bro.no < |pgoff| && |Abs().pages| == |old(Abs()).pages|
      ensures Abs() == P.Tree(R, height, root.no, Abs().pages)
      ensures forall q :: 0 <= q < |pgoff| && q != pg.no && q != bro.no ==> Abs().pages[q] == old(Abs()).pages[q]
      ensures Abs().pages[pg.no] == P.LeftHalf(old(Abs()).pages[pg.no], par.no)
      ensures |old(Abs()).pages[pg.no].recs| == R + 1 && old(Abs()).pages[pg.no].n == R
      ensures Abs().pages[bro.no] == P.RightHalf(old(Abs()).pages[pg.no], par.no, R)
    {
      ghost var was, full := Abs(), pg.State(pgsize);
      InPgoff(this, pg);
      InPgoff(this, bro);
      InPgoff(this, par);
      CopyUpperHalf(pg, bro, par, R, pgsize);
      pg.parent := par;
      pg.nEl := pg.nEl / 2;
      assert pg.State(pgsize).recs == full.recs;
      HalvesInBounds(R, |pgoff|, full, par.no);
      forall j | 0 <= j < |pgoff|
        ensures PageValid(j)
        ensures States()[j] ==
          if j == pg.no then P.LeftHalf(full, par.no)
          else if j == bro.no then P.RightHalf(full, par.no, R)
          else was.pages[j]
      {
        assert old(PageValid(j));
      }
      TwoStatesInBounds(was, Abs(), pg.no, bro.no);
    }

    /** The page that becomes the parent of the old root. */
    method CreateRoot() returns (pg: Page)
      requires Valid()
      modifies this
      ensures fresh(pg) && fresh(pg.recs) && pgoff == old(pgoff) + [pg] && pg.no == |old(pgoff)| && pg.nEl == 0
      ensures Valid()
      ensures Abs() == P.Tree(R, old(height) + 1, pg.no, old(Abs()).pages + [P.EmptyPage(R)])
    {
      pg := CreatePage();
      ghost var pages := States();
      label L:
      root, height := pg, height + 1;
      forall i | 0 <= i < |pgoff|
        ensures PageValid(i) && States()[i] == pages[i]
      {
        assert old@L(PageValid(i));
      }
      assert States() == pages;
    }

    /** The root-split branch of pg_split. */
    method ParentFor(pg: Page) returns (par: Page)
      requires Valid() && pg in pgoff && (pg.parent != null ==> pg.parent.nEl < R)
      modifies this
      ensures par.nEl < R
      ensures Valid() && par in pgoff && old(pgoff) <= pgoff && pg.no < |old(Abs()).pages|
      ensures forall q :: q in pgoff && q !in old(pgoff) ==> fresh(q) && fresh(q.recs)
      ensures par in old(pgoff) || (fresh(par) && fresh(par.recs))
      ensures (Abs(), par.no) == P.WithParent(old(Abs()), pg.no)
    {
      InPgoff(this, pg);
      if pg.parent == null {
        par := CreateRoot();
      } else {
        par := pg.parent;
      }
    }

    /** The new page, and the separator with the offsets of both halves in the parent. */
    method InsertSeparator(pg: Page, par: Page) returns (bro: Page)
      requires Valid() && pg in pgoff && par in pgoff && pg != par && pg.nEl == R && par.nEl < R
      modifies this`pgoff, par`nEl, par.recs
      ensures fresh(bro) && fresh(bro.recs) && pgoff == old(pgoff) + [bro] && Valid()
      ensures bro.State(pgsize) == P.EmptyPage(R) && bro.no == |old(pgoff)| == |old(Abs()).pages|
      ensures bro != pg && bro != par && pg.nEl == R
      ensures SeparatorIn(old(Abs()), pg.no, par.no, Abs())
    {
      ghost var t1 := Abs();
      InPgoff(this, pg);
      InPgoff(this, par);
      var sp := pg.nEl / 2;
      bro := CreatePage();
      OffsetOfPage(pg.no, pgsize);
      OffsetOfPage(bro.no, pgsize);
      InPgoff(this, pg);
      InPgoff(this, bro);
      ghost var t2 := Abs();
      assert t2.pages[pg.no] == t1.pages[pg.no] && t2.pages[par.no] == t1.pages[par.no]
        && t2.pages[bro.no] == P.EmptyPage(R);
      var ret := InsertInto(par, pg.recs[sp].key, pg.recs[sp].val, pg.off, bro.off);
      InPgoff(this, bro);
    }

    /** pg_split once there is a parent with room. */
    method SplitInto(pg: Page, par: Page)
      requires Valid() && pg in pgoff && par in pgoff && pg.nEl == R && par.nEl < R
      modifies this`pgoff, pg`parent, pg`nEl, par`nEl, par.recs
      ensures Valid() && root == old(root) && height == old(height)
      ensures old(pgoff) <= pgoff && forall q :: q in pgoff && q !in old(pgoff) ==> fresh(q) && fresh(q.recs)
      ensures SplitParts(old(Abs()), pg.no, par.no, Abs())
    {
      ghost var t1 := Abs();
      var bro := InsertSeparator(pg, par);
      FinishSplit(pg, bro, par, t1);
    }

    /** The rest of it, with the separator in the parent. */
    method FinishSplit(pg: Page, bro: Page, par: Page, ghost t1: P.Tree)
      requires Valid() && pg in pgoff && bro in pgoff && par in pgoff && pg != par && bro != par && pg != bro
      requires pg.nEl == R && bro.State(pgsize) == P.EmptyPage(R) && bro.no == |t1.pages|
      requires SeparatorIn(t1, pg.no, par.no, Abs())
      modifies pg`parent, pg`nEl, bro`parent, bro`nEl, bro.recs
      ensures Valid() && SplitParts(t1, pg.no, par.no, Abs())
    {
      ghost var t3 := Abs();
      MoveUpperHalf(pg, bro, par);
      ComposeParts(t1, pg.no, par.no, t3, Abs());
    }

    /** pg_split behind its guard. */
    method SplitAllowed(pg: Page) returns (par: Page)
      requires Valid() && pg in pgoff && pg.no < |Abs().pages| && pg.nEl == R
      requires pg.parent != null ==> pg.parent.nEl < R
      modifies this, Repr()
      ensures Valid() && par in pgoff && old(pgoff) <= pgoff
      ensures forall q :: q in pgoff && q !in old(pgoff) ==> fresh(q) && fresh(q.recs)
      ensures var (t1, no) := P.WithParent(old(Abs()), pg.no);
        no == par.no && SplitParts(t1, pg.no, no, Abs())
    {
      par := ParentFor(pg);
      assert pg in pgoff;
      SplitInto(pg, par);
    }

    /** pg_split */
    method Split(pg: Page) returns (par: Page?)
      requires Valid() && pg in pgoff
      modifies this, Repr()
      ensures Valid() && pg.no < |old(Abs()).pages| && old(pgoff) <= pgoff
      ensures forall q :: q in pgoff && q !in old(pgoff) ==> fresh(q) && fresh(q.recs)
      ensures match P.Split(old(Abs()), pg.no)
        case Refused => par == null && Abs() == old(Abs())
        case Done(t, no) => par != null && par in pgoff && par.no == no && Abs() == t
    {
      ghost var was := Abs();
      InPgoff(this, pg);
      if pg.parent != null { InPgoff(this, pg.parent); }
      if pg.nEl < R || (pg.parent != null && pg.parent.nEl >= R) {
        return null;
      }
      par := SplitAllowed(pg);
      SplitIs(was, pg.no, P.WithParent(was, pg.no).0, par.no, Abs());
    }

    /** The same scan, for a page of the tree. */
    method ScanPage(pg: Page, key: int) returns (i: nat)
      requires Valid() && pg in pgoff
      ensures Valid() && Abs() == old(Abs()) && pg.no < |Abs().pages| && Abs().pages[pg.no] == pg.State(pgsize)
      ensures i <= pg.nEl < pg.recs.Length && i == P.Slot(Abs().pages[pg.no], key) && pg.recs[i].off >= 0
      ensures P.LinkInBounds(|pgoff|, LinkState(pg.recs[i].off, pgsize))
        && P.PageInBounds(R, |pgoff|, Abs().pages[pg.no])
    {
      InPgoff(this, pg);
      ghost var was := Abs();
      i := Scan(pg, key, pgsize);
      forall j | 0 <= j < |pgoff|
        ensures PageValid(j) && States()[j] == was.pages[j]
      {
        assert old(PageValid(j));
      }
      assert States() == was.pages;
    }

    /** mmp_bt_search; `*val` is written only when the key is found. */
    method Search(key: int) returns (ret: Ret, val: Option<int>)
      requires Valid() && S.WellFormed(Abs())
      ensures Valid() && Abs() == old(Abs()) && P.InBounds(Abs())
      ensures val == P.Find(Abs(), key) && ret == if val.Some? then Ok else NotFound
    {
      ghost var path := S.SearchPath(Abs(), key);
      ghost var i := 0;
      var pg: Page? := root;
      while pg != null
        invariant Valid() && Abs() == old(Abs())
        invariant 0 <= i <= |path| && (pg == null <==> i == |path|)
        invariant if pg != null then pg in pgoff && path[i] == pg.no else P.Find(Abs(), key) == None
        decreases |path| - i
      {
        assert S.OnPath(Abs(), path, i, key);
        var j := ScanPage(pg, key);
        if j < pg.nEl && pg.recs[j].key == key {
          return Ok, Some(pg.recs[j].val);
        }
        pg := PageFromOff(pg.recs[j].off);
        i := i + 1;
      }
      return NotFound, None;
    }

    /** The scan of one page in mmp_bt_insert. */
    method Act(pg: Page, key: int, val: int) returns (next: Page?, ret: Ret)
      requires Valid() && pg in pgoff && pg.no < |Abs().pages|
      requires pg.nEl < R || P.Act(Abs(), pg.no, key, val) != P.Stop(Abs(), Generic)
      modifies pg`nEl, pg.recs
      ensures Valid()
      ensures P.Act(old(Abs()), pg.no, key, val) ==
        if next == null then P.Stop(Abs(), ret) else P.Descend(Abs(), next.no)
      ensures next != null ==> next in pgoff
    {
      ret := Ok;
      var i := ScanPage(pg, key);
      if i < pg.nEl && pg.recs[i].key == key {
        return null, Params;
      }
      next := PageFromOff(pg.recs[i].off);
      if next == null {
        InsertAt(pg, key, val, i);
      }
    }

    /** The leaf insert: pg_insert_in_pos with the invalid offset just read. */
    method InsertAt(pg: Page, key: int, val: int, i: nat)
      requires Valid() && pg in pgoff && pg.nEl < R && i <= pg.nEl < pg.recs.Length && pg.recs[i].off == INVALID_OFF
      modifies pg`nEl, pg.recs
      ensures Valid() && pg.no < |Abs().pages| == |old(Abs()).pages|
      ensures i <= old(Abs()).pages[pg.no].n < |old(Abs()).pages[pg.no].recs|
      ensures Abs() == old(Abs()).(pages :=
        old(Abs()).pages[pg.no := P.InsertInPos(old(Abs()).pages[pg.no], key, val, P.Nil, P.Nil, i)])
    {
      ghost var was := Abs();
      InPgoff(this, pg);
      InsertInPos(pg, key, val, pg.recs[i].off, pg.recs[i].off, i, pgsize);
      forall j | 0 <= j < |pgoff|
        ensures PageValid(j)
        ensures States()[j] == if j == pg.no then pg.State(pgsize) else was.pages[j]
      {
        assert old(PageValid(j));
      }
      ShiftInBounds(R, |pgoff|, was.pages[pg.no], key, val, i);
      OneStateInBounds(was, Abs(), pg.no);
    }

    /** One pass of the `reloop` of mmp_bt_insert.  On the way down a B-tree no scan inserts in a full page. */
    method Pass(at: Page, key: int, val: int, ghost L: seq<S.Label>, ghost o: P.Outcome) returns (next: Page?, ret: Ret)
      requires Valid() && at in pgoff && at.no < |Abs().pages| && D.Zone(Abs(), L, at.no, key)
      requires o == P.Step(Abs(), at.no, key, val)
      modifies this, Repr()
      ensures Valid() && old(pgoff) <= pgoff
      ensures forall q :: q in pgoff && q !in old(pgoff) ==> fresh(q) && fresh(q.recs)
      ensures o == if next == null then P.Stop(Abs(), ret) else P.Descend(Abs(), next.no)
      ensures next != null ==> next in pgoff
    {
      var pg: Page? := at;
      InPgoff(this, at);
      if at.nEl >= R {
        if P.CanSplit(Abs(), at.no) { D.FullAct(Abs(), L, at.no, key, val); }
        pg := Split(at);
        if pg == null { return null, Generic; }
        InPgoff(this, pg);
      }
      next, ret := Act(pg, key, val);
    }

    /** mmp_bt_insert, on any B-tree: it terminates, stays inside the pages, and computes
        BTreePages.Insert; BTreeLimit says when that is what it should be. */
    method Insert(key: int, val: int) returns (ret: Ret)
      requires Valid() && S.WellFormed(Abs())
      modifies this, Repr()
      ensures Valid() && P.InBounds(old(Abs())) && fresh(Repr() - old(Repr()))
      ensures (Abs(), ret) == P.Insert(old(Abs()), key, val)
      ensures O.Told(old(Abs()), key, val, (Abs(), ret))
    {
      O.InsertTold(Abs(), key, val);
      ghost var os, Ls := D.InsertPasses(Abs(), key, val);
      ghost var i := 0;
      var pg: Page? := root;
      ret := Ok;
      while pg != null
        invariant Valid() && forall q :: q in pgoff && q !in old(pgoff) ==> fresh(q) && fresh(q.recs)
        invariant 0 <= i < |os| && Abs() == os[i].t
        invariant if pg != null then pg in pgoff && os[i].Descend? && os[i].to == pg.no else os[i] == P.Stop(Abs(), ret)
        decreases |os| - i
      {
        assert D.PassOk(os[i], Ls[i], key, val, os[i + 1]);
        pg, ret := Pass(pg, key, val, Ls[i], os[i + 1]);
        i := i + 1;
      }
      assert i < |os| - 1 ==> D.PassOk(os[i], Ls[i], key, val, os[i + 1]);
      forall o | o in Repr() && o !in old(Repr())
        ensures fresh(o)
      {
        if q :| q in pgoff && (o == q || o == q.recs) { assert q !in old(pgoff); }
      }
    }
  }

  lemma ShiftInBounds(R: nat, count: nat, pg: P.Page, key: int, val: int, i: nat)
    requires P.PageInBounds(R, count, pg) && i <= pg.n < R
    ensures P.PageInBounds(R, count, P.InsertInPos(pg, key, val, P.Nil, P.Nil, i))
  {
  }

  ghost predicate SeparatorIn(t: P.Tree, p: nat, par: nat, t': P.Tree) {
    && par < |t.pages| && par != p && p < |t.pages| && |t'.pages| == |t.pages| + 1
    && 0 <= t.pages[par].n < |t.pages[par].recs| && 1 <= t.pages[p].n <= t.R && |t.pages[p].recs| == t.R + 1
    && (var sep := t.pages[p].recs[t.pages[p].n / 2];
        t'.pages[par] == P.InsertInPage(t.pages[par], sep.key, sep.val, P.To(p), P.To(|t.pages|)))
    && (forall q :: 0 <= q < |t.pages| && q != par ==> t'.pages[q] == t.pages[q])
    && t' == P.Tree(t.R, t.height, t.root, t'.pages)
  }

  /** The pages after a split of page `p` into the parent `par`, one by one. */
  ghost predicate SplitParts(t: P.Tree, p: nat, par: nat, t': P.Tree) {
    var nu := |t.pages|;
    && par < nu && par != p && p < nu && |t'.pages| == nu + 1
    && 0 <= t.pages[par].n < |t.pages[par].recs| && 1 <= t.pages[p].n <= t.R && |t.pages[p].recs| == t.R + 1
    && (var sep := t.pages[p].recs[t.pages[p].n / 2];
        t'.pages[par] == P.InsertInPage(t.pages[par], sep.key, sep.val, P.To(p), P.To(nu)))
    && t'.pages[p] == P.LeftHalf(t.pages[p], par) && t'.pages[nu] == P.RightHalf(t.pages[p], par, t.R)
    && (forall q :: 0 <= q < nu && q != par && q != p ==> t'.pages[q] == t.pages[q])
    && t' == P.Tree(t.R, t.height, t.root, t'.pages)
  }

  lemma SplitIs(was: P.Tree, p: nat, t1: P.Tree, par: nat, t': P.Tree)
    requires P.InBounds(was) && p < |was.pages| && P.CanSplit(was, p) && (t1, par) == P.WithParent(was, p)
    requires SplitParts(t1, p, par, t')
    ensures P.Split(was, p) == P.Done(t', par)
  {
    D.SplitPages(was, p);
    assert P.Split(was, p).t.pages == t'.pages;
  }

  lemma ComposeParts(t: P.Tree, p: nat, par: nat, t3: P.Tree, t': P.Tree)
    requires SeparatorIn(t, p, par, t3)
    requires |t'.pages| == |t3.pages| && t' == P.Tree(t.R, t.height, t.root, t'.pages)
    requires forall q :: 0 <= q < |t3.pages| && q != p && q != |t.pages| ==> t'.pages[q] == t3.pages[q]
    requires t'.pages[p] == P.LeftHalf(t3.pages[p], par) && t'.pages[|t.pages|] == P.RightHalf(t.pages[p], par, t.R)
    ensures SplitParts(t, p, par, t')
  {
  }

  lemma HalvesInBounds(R: nat, count: nat, full: P.Page, par: nat)
    requires R >= 1 && P.PageInBounds(R, count, full) && full.n == R && par < count
    ensures P.PageInBounds(R, count, P.LeftHalf(full, par)) && P.PageInBounds(R, count, P.RightHalf(full, par, R))
  {
  }

  lemma TwoStatesInBounds(t: P.Tree, t': P.Tree, a: nat, b: nat)
    requires P.InBounds(t) && a < |t.pages| == |t'.pages| && b < |t.pages| && t'.R == t.R && t'.root == t.root
    requires forall j :: 0 <= j < |t.pages| && j != a && j != b ==> t'.pages[j] == t.pages[j]
    requires P.PageInBounds(t.R, |t.pages|, t'.pages[a]) && P.PageInBounds(t.R, |t.pages|, t'.pages[b])
    ensures P.InBounds(t')
  {
    forall j | 0 <= j < |t'.pages|
      ensures P.PageInBounds(t'.R, |t'.pages|, t'.pages[j])
    {
      assert j == a || j == b || P.PageInBounds(t.R, |t.pages|, t.pages[j]);
    }
  }

  /** The trees differ in page `no` at most. */
  ghost predicate Replaced(t: P.Tree, t': P.Tree, no: nat) {
    && no < |t.pages| == |t'.pages| && t' == P.Tree(t.R, t.height, t.root, t'.pages)
    && forall j :: 0 <= j < |t.pages| && j != no ==> t'.pages[j] == t.pages[j]
  }

  lemma InPgoff(t: BTree, pg: Page)
    requires t.Valid() && pg in t.pgoff
    ensures pg.no < |t.pgoff| && t.pgoff[pg.no] == pg && t.PageValid(pg.no)
    ensures t.Abs().pages[pg.no] == pg.State(t.pgsize) && P.PageInBounds(t.R, |t.pgoff|, pg.State(t.pgsize))
  {
    var i :| 0 <= i < |t.pgoff| && t.pgoff[i] == pg;
    assert t.PageValid(i);
    assert P.PageInBounds(t.R, |t.pgoff|, t.Abs().pages[pg.no]);
  }

  lemma OneStateInBounds(t: P.Tree, t': P.Tree, no: nat)
    requires P.InBounds(t) && no < |t.pages| == |t'.pages| && t'.R == t.R && t'.root == t.root
    requires forall j :: 0 <= j < |t.pages| && j != no ==> t'.pages[j] == t.pages[j]
    requires P.PageInBounds(t.R, |t.pages|, t'.pages[no])
    ensures P.InBounds(t')
  {
    forall j | 0 <= j < |t'.pages|
      ensures P.PageInBounds(t'.R, |t'.pages|, t'.pages[j])
    {
      assert j == no || P.PageInBounds(t.R, |t.pages|, t.pages[j]);
    }
  }

  lemma GrownInBounds(t: P.Tree, pg: P.Page)
    requires P.InBounds(t) && P.PageInBounds(t.R, |t.pages| + 1, pg)
    ensures P.InBounds(t.(pages := t.pages + [pg]))
  {
    forall q | 0 <= q < |t.pages|
      ensures P.PageInBounds(t.R, |t.pages| + 1, t.pages[q])
    {
      assert P.PageInBounds(t.R, |t.pages|, t.pages[q]);
    }
  }
}
