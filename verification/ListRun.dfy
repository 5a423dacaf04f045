/**
 Whole runs of a list: what it holds, in which order both traversals meet it, and that the two ways
 of finding an element agree.
 */
module ListRun {
  import opened Status
  import opened ListSpec
  import opened List

  datatype Op = Push(data: Ptr) | AddSorted(data: Ptr) | Del(at: nat)

  /** The data after a run: deletions name the place of a node of the list at that time. */
  function After(ops: seq<Op>, comp: Comparer): seq<Ptr> {
    if ops == [] then [] else
    var s := After(ops[..|ops| - 1], comp);
    match ops[|ops| - 1]
    case Push(data) => [data] + s
    case AddSorted(data) => Insert(s, Place(s, data, comp), data)
    case Del(i) => if i < |s| then Remove(s, i) else s
  }

  predicate Legal(ops: seq<Op>, comp: Comparer) {
    ops == [] ||
    (var n := |ops| - 1;
     Legal(ops[..n], comp) && (ops[n].Del? ==> ops[n].at < |After(ops[..n], comp)|))
  }

  predicate SortedOnly(ops: seq<Op>) {
    forall i :: 0 <= i < |ops| ==> !ops[i].Push?
  }

  /** Without mmp_list_add_data in between, any run leaves the list in descending order. */
  lemma {:induction false} SortedRunDescending(ops: seq<Op>, comp: Comparer)
    requires TotalPreorder(comp) && SortedOnly(ops)
    ensures Descending(After(ops, comp), comp)
  {
    if ops != [] {
      var n := |ops| - 1;
      SortedRunDescending(ops[..n], comp);
      match ops[n] {
        case AddSorted(data) => InsertKeepsDescending(After(ops[..n], comp), data, comp);
        case Del(i) => if i < |After(ops[..n], comp)| { RemoveKeepsDescending(After(ops[..n], comp), i, comp); }
      }
    }
  }

  /** One operation on a list. */
  method Apply(list: List, op: Op, comp: Comparer, ghost ops: seq<Op>)
    requires list.Valid() && list.Data() == After(ops, comp) && Legal(ops + [op], comp)
    modifies list, list.nodes
    ensures list.Valid() && list.Data() == After(ops + [op], comp)
    ensures forall n :: n in list.nodes && n !in old(list.nodes) ==> fresh(n)
  {
    assert (ops + [op])[..|ops|] == ops;
    match op {
      case Push(data) => list.AddData(data); assert list.nodes == [list.nodes[0]] + list.nodes[1..];
      case AddSorted(data) => list.AddDataSorted(data, comp);
      case Del(i) =>
        var elem := list.NodeNumber(i);
        var r := list.DelElem(elem, i);
    }
  }

  /** Any run, on a list made for it: the forward traversal meets the data of the run, the backward
      one its exact reverse, and the count is right. */
  method Run(ops: seq<Op>, comp: Comparer) returns (forward: seq<Ptr>, backward: seq<Ptr>, count: int)
    requires Legal(ops, comp)
    ensures forward == After(ops, comp) && backward == Reversed(forward) && count == |forward|
  {
    var list := MakeList(ops, comp);
    count := list.nelems;
    forward := list.LambdaDataExt();
    backward := list.LambdaDataExtRev();
  }

  method MakeList(ops: seq<Op>, comp: Comparer) returns (list: List)
    requires Legal(ops, comp)
    ensures fresh(list) && (forall k :: 0 <= k < |list.nodes| ==> fresh(list.nodes[k])) && list.Valid()
      && list.Data() == After(ops, comp)
  {
    list := new List();
    var i := 0;
    assert ops[..0] == [];
    while i < |ops|
      invariant 0 <= i <= |ops| && fresh(list) && forall k :: 0 <= k < |list.nodes| ==> fresh(list.nodes[k])
      invariant list.Valid() && list.Data() == After(ops[..i], comp)
    {
      assert ops[..i + 1] == ops[..i] + [ops[i]];
      LegalPrefix(ops, comp, i + 1);
      ghost var was := list.nodes;
      Apply(list, ops[i], comp, ops[..i]);
      forall k | 0 <= k < |list.nodes|
        ensures fresh(list.nodes[k])
      {
        assert list.nodes[k] in list.nodes;
        if list.nodes[k] in was { var j :| 0 <= j < |was| && was[j] == list.nodes[k]; }
      }
      i := i + 1;
    }
    assert ops[..|ops|] == ops;
  }

  lemma {:induction false} LegalPrefix(ops: seq<Op>, comp: Comparer, i: nat)
    requires Legal(ops, comp) && i <= |ops|
    ensures Legal(ops[..i], comp)
  {
    if i < |ops| {
      LegalPrefix(ops[..|ops| - 1], comp, i);
      assert ops[..|ops| - 1][..i] == ops[..i];
    } else {
      assert ops[..i] == ops;
    }
  }

  /** After any run of sorted insertions and deletions the search that gives up early returns what the
      full scan returns. */
  method FindBothWays(ops: seq<Op>, comp: Comparer, data: Ptr) returns (same: bool, found: bool)
    requires Legal(ops, comp) && SortedOnly(ops) && TotalPreorder(comp)
    ensures same
    ensures found <==> data != NULL && exists j :: 0 <= j < |After(ops, comp)| && comp(data, After(ops, comp)[j]) == 0
  {
    var list := MakeList(ops, comp);
    ghost var s := list.Data();
    var p := list.FindDataSorted(data, comp);
    var q := list.FindDataLambda(data, comp);
    SortedRunDescending(ops, comp);
    FindSortedIsScan(s, data, comp);
    same, found := p == q, q != null;
  }
}
