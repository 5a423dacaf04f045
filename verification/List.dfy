/**
 src/mmp_list.c: the doubly linked list, with its node pointers.  Each method is proved to do to
 the data what ListSpec.dfy says.
 */
module List {
  import opened Status
  import opened ListSpec

  class Node {
    var data: Ptr
    var next: Node?
    var prev: Node?
  }

  class List {
    var nelems: int
    var head: Node?
    var tail: Node?
    /** The nodes from head to tail. */
    ghost var nodes: seq<Node>

    /** `next` and `prev` are inverse along the nodes, `head` and `tail` the two ends. */
    ghost predicate Valid()
      reads this, nodes
    {
      && nelems == |nodes|
      && head == At(nodes, 0)
      && tail == At(nodes, |nodes| - 1)
      && Linked(nodes)
    }

    static ghost predicate Linked(nodes: seq<Node>)
      reads nodes
    {
      && (forall i, j :: 0 <= i < j < |nodes| ==> nodes[i] != nodes[j])
      && (forall i :: 0 <= i < |nodes| ==> NodeOk(nodes, i))
    }

    static ghost predicate NodeOk(nodes: seq<Node>, i: int)
      requires 0 <= i < |nodes|
      reads nodes
    {
      nodes[i].next == At(nodes, i + 1) && nodes[i].prev == At(nodes, i - 1)
    }

    /** The node at a place, or NULL past the ends. */
    static ghost function At(nodes: seq<Node>, i: int): Node? {
      if 0 <= i < |nodes| then nodes[i] else null
    }

    ghost function Data(): (s: seq<Ptr>)
      reads this, nodes
      ensures |s| == |nodes|
    {
      seq(|nodes|, i requires 0 <= i < |nodes| reads this, nodes => nodes[i].data)
    }

    /** mmp_list_create */
    constructor ()
      ensures Valid() && nodes == []
    {
      nelems, head, tail, nodes := 0, null, null, [];
    }

    /** mmp_list_add_data: in front. */
    method AddData(data: Ptr)
      requires Valid()
      modifies this, nodes
      ensures Valid() && |nodes| == |old(nodes)| + 1 && fresh(nodes[0]) && nodes[1..] == old(nodes)
      ensures Data() == [data] + old(Data())
    {
      var nu := new Node;
      nu.data := data;
      nu.prev := null;
      nu.next := head;
      if head != null { head.prev := nu; }
      head := nu;
      if tail == null { tail := nu; }
      nelems := nelems + 1;
      nodes := [nu] + nodes;
      forall i | 0 <= i < |nodes|
        ensures NodeOk(nodes, i)
      {
        if i > 0 { assert nodes[i] == old(nodes)[i - 1] && old(NodeOk(nodes, i - 1)); }
      }
    }

    /** The loop of mmp_list_add_data_sorted. */
    method FindPlace(data: Ptr, comp: Comparer) returns (p: Node?, ghost i: nat)
      requires Valid()
      ensures p == At(nodes, Place(Data(), data, comp))
      ensures i == Place(Data(), data, comp)
    {
      p, i := head, 0;
      while p != null && comp(p.data, data) > 0
        invariant 0 <= i <= |nodes| && p == At(nodes, i)
        invariant forall j :: 0 <= j < i ==> comp(Data()[j], data) > 0
        decreases |nodes| - i
      {
        assert NodeOk(nodes, i);
        p := p.next;
        i := i + 1;
      }
      PlaceIs(Data(), data, comp, i);
    }

    /** mmp_list_add_data_sorted */
    method AddDataSorted(data: Ptr, comp: Comparer)
      requires Valid()
      modifies this, nodes
      ensures Valid() && forall n :: n in nodes && n !in old(nodes) ==> fresh(n)
      ensures Data() == Insert(old(Data()), Place(old(Data()), data, comp), data)
    {
      if head == null {
        AddData(data);
        return;
      }
      var p, i := FindPlace(data, comp);
      if p == null {
        AddLast(data);
      } else if p == head {
        AddFirst(data);
      } else {
        AddBefore(p, data, i);
      }
    }

    /** The first branch: behind the tail. */
    method AddLast(data: Ptr)
      requires Valid() && |nodes| > 0
      modifies this, nodes
      ensures Valid() && |nodes| == |old(nodes)| + 1 && nodes == old(nodes) + [nodes[|old(nodes)|]]
        && fresh(nodes[|old(nodes)|])
      ensures Data() == Insert(old(Data()), |old(nodes)|, data)
    {
      ghost var was, n := Data(), |nodes|;
      var nu := new Node;
      nu.data := data;
      nu.prev := tail;
      nu.next := null;
      tail.next := nu;
      tail := nu;
      nelems := nelems + 1;
      nodes := nodes + [nu];
      forall j | 0 <= j < |nodes|
        ensures NodeOk(nodes, j)
      {
        if j < n { assert old(NodeOk(nodes, j)); }
      }
      assert Data() == Insert(was, n, data);
    }

    /** The second branch: before the head. */
    method AddFirst(data: Ptr)
      requires Valid() && |nodes| > 0
      modifies this, nodes
      ensures Valid() && |nodes| == |old(nodes)| + 1 && nodes == [nodes[0]] + old(nodes) && fresh(nodes[0])
      ensures Data() == Insert(old(Data()), 0, data)
    {
      ghost var was := Data();
      var nu := new Node;
      nu.data := data;
      nu.prev := null;
      nu.next := head;
      head.prev := nu;
      head := nu;
      nelems := nelems + 1;
      nodes := [nu] + nodes;
      forall j | 0 <= j < |nodes|
        ensures NodeOk(nodes, j)
      {
        if j > 0 { assert nodes[j] == old(nodes)[j - 1] && old(NodeOk(nodes, j - 1)); }
      }
      assert Data() == Insert(was, 0, data);
    }

    /** The third branch: between `p` and the node before it. */
    method AddBefore(p: Node, data: Ptr, ghost i: nat)
      requires Valid() && 0 < i < |nodes| && p == nodes[i]
      modifies this, nodes
      ensures Valid() && |nodes| == |old(nodes)| + 1 && fresh(nodes[i])
      ensures nodes == old(nodes)[..i] + [nodes[i]] + old(nodes)[i..]
      ensures Data() == Insert(old(Data()), i, data)
    {
      ghost var was := Data();
      assert NodeOk(nodes, i);
      var nu := new Node;
      nu.data := data;
      nu.prev := p.prev;
      if p.prev != null { p.prev.next := nu; }
      p.prev := nu;
      nu.next := p;
      nelems := nelems + 1;
      nodes := nodes[..i] + [nu] + nodes[i..];
      forall j | 0 <= j < |nodes|
        ensures NodeOk(nodes, j)
      {
        if j < i { assert nodes[j] == old(nodes)[j] && old(NodeOk(nodes, j)); }
        if j > i { assert nodes[j] == old(nodes)[j - 1] && old(NodeOk(nodes, j - 1)); }
      }
      assert Data() == Insert(was, i, data);
    }

    /** mmp_list_del_elem, for an element of this list.  The header promises the element's data; the
        code always returns NULL. */
    method DelElem(elem: Node, ghost i: nat) returns (r: Ptr)
      requires Valid() && i < |nodes| && elem == nodes[i]
      modifies this, nodes
      ensures Valid() && nodes == old(nodes)[..i] + old(nodes)[i + 1..] && r == NULL
      ensures Data() == Remove(old(Data()), i)
    {
      ghost var was, l, r' := Data(), At(nodes, i - 1), At(nodes, i + 1);
      assert NodeOk(nodes, i);
      assert i > 0 ==> l != r' && l != elem;
      if elem.prev != null { elem.prev.next := elem.next; }
      if elem.next != null { elem.next.prev := elem.prev; }
      assert (l != null ==> l.next == r') && (r' != null ==> r'.prev == l);
      if head == elem { head := elem.next; }
      if tail == elem { tail := elem.prev; }
      nelems := nelems - 1;
      nodes := nodes[..i] + nodes[i + 1..];
      forall j | 0 <= j < |nodes|
        ensures NodeOk(nodes, j) && Data()[j] == Remove(was, i)[j]
      {
        var j' := if j < i then j else j + 1;
        assert nodes[j] == old(nodes)[j'] && old(NodeOk(nodes, j'));
        assert nodes[j] == l ==> j == i - 1;
        assert nodes[j] == r' ==> j == i;
      }
      assert head == At(nodes, 0) && tail == At(nodes, |nodes| - 1);
      r := NULL;
    }

    /** The node a caller gets at by walking `i` steps. */
    method NodeNumber(i: nat) returns (p: Node)
      requires Valid() && i < |nodes|
      ensures Valid() && Data() == old(Data()) && p == nodes[i]
    {
      assert head == nodes[0];
      p := head;
      var k := 0;
      while k < i
        invariant 0 <= k <= i && p == nodes[k]
      {
        assert NodeOk(nodes, k);
        p := p.next;
        k := k + 1;
      }
    }

    /** mmp_list_find_data */
    method FindData(data: Ptr) returns (p: Node?, ghost r: Option<nat>)
      requires Valid()
      ensures p == NodeAt(r)
      ensures r.Some? ==> r.value < |nodes| && Data()[r.value] == data != NULL && data !in Data()[..r.value]
      ensures r.None? ==> data == NULL || data !in Data()
    {
      if data == NULL { return null, None; }
      p := head;
      ghost var i := 0;
      while p != null
        invariant 0 <= i <= |nodes| && p == At(nodes, i)
        invariant data !in Data()[..i]
        decreases |nodes| - i
      {
        assert NodeOk(nodes, i);
        if p.data == data { return p, Some(i); }
        p := p.next;
        i := i + 1;
      }
      return null, None;
    }

    /** mmp_list_del_elem_by_data */
    method DelElemByData(data: Ptr) returns (r: Ptr)
      requires Valid()
      modifies this, nodes
      ensures Valid() && r == NULL
      ensures if data == NULL || data !in old(Data()) then Data() == old(Data()) && nodes == old(nodes)
        else exists i ::
          && 0 <= i < |old(Data())| && old(Data())[i] == data && data !in old(Data())[..i]
          && Data() == Remove(old(Data()), i)
    {
      var p, i := FindData(data);
      if p == null { return NULL; }
      r := DelElem(p, i.value);
    }

    /** mmp_list_find_data_lambda */
    method FindDataLambda(data: Ptr, comp: Comparer) returns (p: Node?)
      requires Valid()
      ensures Valid() && Data() == old(Data())
      ensures p == NodeAt(if data == NULL then None else FindScan(Data(), data, comp))
    {
      if data == NULL { return null; }
      p := head;
      ghost var i := 0;
      while p != null
        invariant 0 <= i <= |nodes| && p == At(nodes, i)
        invariant forall j :: 0 <= j < i ==> comp(data, Data()[j]) != 0
        decreases |nodes| - i
      {
        assert NodeOk(nodes, i);
        if comp(data, p.data) == 0 {
          FindScanIs(Data(), data, comp, i);
          return;
        }
        p := p.next;
        i := i + 1;
      }
    }

    ghost function NodeAt(r: Option<nat>): Node?
      reads this
    {
      if r.Some? then At(nodes, r.value) else null
    }

    /** mmp_list_find_data_sorted */
    method FindDataSorted(data: Ptr, comp: Comparer) returns (p: Node?)
      requires Valid()
      ensures Valid() && Data() == old(Data())
      ensures p == NodeAt(if data == NULL then None else FindSorted(Data(), data, comp))
    {
      if data == NULL { return null; }
      p := head;
      ghost var i := 0;
      while p != null
        invariant 0 <= i <= |nodes| && p == At(nodes, i)
        invariant forall j :: 0 <= j < i ==> comp(data, Data()[j]) < 0
        decreases |nodes| - i
      {
        assert NodeOk(nodes, i);
        FindSortedSkips(Data(), data, comp, i);
        if comp(data, p.data) < 0 {
          p := p.next;
          i := i + 1;
          continue;
        } else if comp(data, p.data) == 0 {
          return p;
        } else {
          return null;
        }
      }
      FindSortedSkips(Data(), data, comp, i);
    }

    /** mmp_list_lambda_data_ext: the data in the order in which the callback sees it. */
    method LambdaDataExt() returns (visited: seq<Ptr>)
      requires Valid()
      ensures Valid() && Data() == old(Data()) && visited == Data()
    {
      visited := [];
      var p := head;
      ghost var i := 0;
      while p != null
        invariant 0 <= i <= |nodes| && p == At(nodes, i)
        invariant visited == Data()[..i]
        decreases |nodes| - i
      {
        assert NodeOk(nodes, i);
        visited := visited + [p.data];
        p := p.next;
        i := i + 1;
      }
    }

    /** mmp_list_lambda_data_ext_rev */
    method LambdaDataExtRev() returns (visited: seq<Ptr>)
      requires Valid()
      ensures Valid() && Data() == old(Data()) && visited == Reversed(Data())
    {
      visited := [];
      var p := tail;
      ghost var i := |nodes|;
      while p != null
        invariant 0 <= i <= |nodes| && p == At(nodes, i - 1)
        invariant |visited| == |nodes| - i && visited == Reversed(Data())[..|nodes| - i]
        decreases i
      {
        assert NodeOk(nodes, i - 1);
        visited := visited + [p.data];
        p := p.prev;
        i := i - 1;
      }
    }

    /** mmp_list_find_min, started at node `k`. */
    method FindMin(start: Node, ghost k: nat, comp: Comparer) returns (min: Node, ghost m: nat)
      requires Valid() && TotalPreorder(comp) && k < |nodes| && start == nodes[k]
      ensures Valid() && Data() == old(Data()) && IsFirstLeast(Data(), k, m, comp) && min == nodes[m]
    {
      var p: Node? := start;
      min, m := start, k;
      ghost var i := k;
      while p != null
        invariant k <= i <= |nodes| && p == At(nodes, i)
        invariant k <= m < |nodes| && (m < i || m == k) && min == nodes[m]
        invariant LeastBefore(Data(), k, m, i, comp)
        decreases |nodes| - i
      {
        assert NodeOk(nodes, i);
        assert Data()[i] == p.data && Data()[m] == min.data;
        LeastStep(Data(), k, m, i, comp);
        if comp(min.data, p.data) > 0 {
          min, m := p, i;
        }
        p := p.next;
        i := i + 1;
      }
    }

    /** One round of mmp_list_sort_by_data. */
    method SelectNext(p: Node, ghost k: nat, comp: Comparer) returns (next: Node?)
      requires Valid() && TotalPreorder(comp) && k < |nodes| && p == nodes[k] && SettledTo(Data(), k, comp)
      modifies nodes`data
      ensures Valid() && SettledTo(Data(), k + 1, comp) && multiset(Data()) == multiset(old(Data()))
      ensures next == At(nodes, k + 1)
    {
      ghost var s := Data();
      var n, m := FindMin(p, k, comp);
      assert Data() == s;
      SwapAt(p, n, k, m);
      SwappedSettles(s, k, m, comp);
      assert NodeOk(nodes, k);
      next := p.next;
    }

    /** mmp_list_swap_elems on two elements of the list. */
    method SwapAt(p: Node, n: Node, ghost k: nat, ghost m: nat)
      requires Valid() && k < |nodes| && m < |nodes| && p == nodes[k] && n == nodes[m]
      modifies p`data, n`data
      ensures Valid() && Data() == Swapped(old(Data()), k, m)
    {
      ghost var s := Data();
      SwapElems(p, n);
      forall i | 0 <= i < |nodes|
        ensures NodeOk(nodes, i) && Data()[i] == Swapped(s, k, m)[i]
      {
        assert old(NodeOk(nodes, i));
      }
    }

    /** mmp_list_sort_by_data: only data moves; the chain of nodes stays as it is. */
    method SortByData(comp: Comparer)
      requires Valid() && TotalPreorder(comp)
      modifies nodes`data
      ensures Valid() && Ascending(Data(), comp) && multiset(Data()) == multiset(old(Data()))
    {
      var p := head;
      ghost var k := 0;
      while p != null
        invariant 0 <= k <= |nodes| && p == At(nodes, k)
        invariant Valid() && SettledTo(Data(), k, comp) && multiset(Data()) == multiset(old(Data()))
        decreases |nodes| - k
      {
        p := SelectNext(p, k, comp);
        k := k + 1;
      }
    }
  }

  /** mmp_list_swap_elems */
  method SwapElems(e1: Node, e2: Node)
    modifies e1`data, e2`data
    ensures e1.data == old(e2.data) && e2.data == old(e1.data)
  {
    if e1 == e2 { return; }
    var dt := e1.data;
    e1.data := e2.data;
    e2.data := dt;
  }
}
