/**
 Increasing runs on the tree in memory: filled by mmp_bt_insert, asked by mmp_bt_search.
 */
module BTreeFill {
  import opened Status
  import P = BTreePages
  import S = BTreeShape
  import opened BTreeRuns
  import B = BTree

  /** A run that the tree carries, for so many keys a page. */
  ghost predicate Carried(R: nat, kvs: seq<(int, int)>) {
    R >= 1 && Increasing(kvs) && |kvs| <= Capacity(R)
  }

  /** The tree that a run leaves. */
  ghost function TreeOf(R: nat, kvs: seq<(int, int)>): P.Tree
    requires R >= 1
  {
    EmptyTreeOk(R);
    InsertAll(EmptyTree(R), kvs).0
  }

  /** One insertion takes `t` to `t'` and succeeds. */
  ghost predicate Adds(t: P.Tree, kv: (int, int), t': P.Tree) {
    S.WellFormed(t) && P.InBounds(t) && P.Insert(t, kv.0, kv.1) == (t', Ok)
  }

  /** The trees of a run, one after the other. */
  ghost predicate Path(ts: seq<P.Tree>, kvs: seq<(int, int)>) {
    |ts| == |kvs| + 1 && forall i :: 0 <= i < |kvs| ==> Adds(ts[i], kvs[i], ts[i + 1])
  }

  /** A tree finds exactly these keys, each with its own value. */
  ghost predicate Answers(t: P.Tree, kvs: seq<(int, int)>) {
    S.WellFormed(t) && P.InBounds(t) && forall key, v :: P.Find(t, key) == Some(v) <==> (key, v) in kvs
  }

  lemma NextAdds(R: nat, kvs: seq<(int, int)>, i: nat)
    requires Carried(R, kvs) && i < |kvs|
    ensures Adds(TreeOf(R, kvs[..i]), kvs[i], TreeOf(R, kvs[..i + 1]))
  {
    RunGrows(R, kvs[..i]);
    RunGrows(R, kvs[..i + 1]);
    assert kvs[..i + 1][..i] == kvs[..i];
  }

  lemma PathOf(R: nat, kvs: seq<(int, int)>) returns (ts: seq<P.Tree>)
    requires Carried(R, kvs)
    ensures Path(ts, kvs) && ts[0] == EmptyTree(R) && ts[|kvs|] == TreeOf(R, kvs)
  {
    ts := seq(|kvs| + 1, i requires 0 <= i <= |kvs| => TreeOf(R, kvs[..i]));
    forall i | 0 <= i < |kvs|
      ensures Adds(ts[i], kvs[i], ts[i + 1])
    {
      NextAdds(R, kvs, i);
    }
    assert kvs[..|kvs|] == kvs;
  }

  lemma TreeAnswers(R: nat, kvs: seq<(int, int)>)
    requires Carried(R, kvs)
    ensures Answers(TreeOf(R, kvs), kvs)
  {
    RunGrows(R, kvs);
    forall key, v
      ensures P.Find(TreeOf(R, kvs), key) == Some(v) <==> (key, v) in kvs
    {
      IncreasingRunFinds(R, kvs, key, v);
    }
  }

  /** One insertion, into the tree that is expected. */
  method InsertOne(bt: B.BTree, kv: (int, int), ghost t': P.Tree) returns (ret: Ret)
    requires bt.Valid() && Adds(bt.Abs(), kv, t')
    modifies bt, bt.Repr()
    ensures bt.Valid() && bt.Abs() == t' && ret == Ok && fresh(bt.Repr() - old(bt.Repr()))
  {
    ret := bt.Insert(kv.0, kv.1);
  }

  /** The insertions of a run, on the first of its trees. */
  method InsertRun(bt: B.BTree, kvs: seq<(int, int)>, ghost ts: seq<P.Tree>) returns (allOk: bool)
    requires bt.Valid() && Path(ts, kvs) && bt.Abs() == ts[0]
    modifies bt, bt.Repr()
    ensures bt.Valid() && allOk && bt.Abs() == ts[|kvs|] && fresh(bt.Repr() - old(bt.Repr()))
  {
    allOk := true;
    var i := 0;
    while i < |kvs|
      invariant 0 <= i <= |kvs| && allOk && bt.Valid() && bt.Abs() == ts[i] && fresh(bt.Repr() - old(bt.Repr()))
    {
      var ret := InsertOne(bt, kvs[i], ts[i + 1]);
      allOk := allOk && ret == Ok;
      i := i + 1;
    }
  }

  /** Every insertion of the run succeeds. */
  method Fill(pageSize: nat, kvs: seq<(int, int)>) returns (bt: B.BTree, allOk: bool)
    requires pageSize / B.REC_SIZE >= 2 && Carried(pageSize / B.REC_SIZE - 1, kvs)
    ensures bt.Valid() && allOk && bt.Abs() == TreeOf(pageSize / B.REC_SIZE - 1, kvs)
  {
    ghost var ts := PathOf(pageSize / B.REC_SIZE - 1, kvs);
    bt := new B.BTree(pageSize);
    allOk := InsertRun(bt, kvs, ts);
  }

  method SearchAll(bt: B.BTree, keys: seq<int>, ghost kvs: seq<(int, int)>) returns (vals: seq<Option<int>>)
    requires bt.Valid() && Answers(bt.Abs(), kvs)
    ensures |vals| == |keys| && forall k, v :: 0 <= k < |keys| ==> (vals[k] == Some(v) <==> (keys[k], v) in kvs)
  {
    vals := [];
    while |vals| < |keys|
      invariant |vals| <= |keys| && bt.Valid() && Answers(bt.Abs(), kvs)
      invariant forall k, v :: 0 <= k < |vals| ==> (vals[k] == Some(v) <==> (keys[k], v) in kvs)
    {
      var ret, val := bt.Search(keys[|vals|]);
      vals := vals + [val];
    }
  }

  /** After a run exactly its keys are found, each with its own value, in any number of searches. */
  method FillAndSearch(pageSize: nat, kvs: seq<(int, int)>, keys: seq<int>) returns (vals: seq<Option<int>>)
    requires pageSize / B.REC_SIZE >= 2 && Carried(pageSize / B.REC_SIZE - 1, kvs)
    ensures |vals| == |keys| && forall k, v :: 0 <= k < |keys| ==> (vals[k] == Some(v) <==> (keys[k], v) in kvs)
  {
    var bt, ok := Fill(pageSize, kvs);
    TreeAnswers(pageSize / B.REC_SIZE - 1, kvs);
    vals := SearchAll(bt, keys, kvs);
  }
}
