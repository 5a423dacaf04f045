/**
 src/mmp_prioq.c: a max-heap in an array that grows by ten.
 */
module PrioQ {
  import opened Status

  /** t_pnode_s: never changed once made, so the array of pointers is an array of values. */
  datatype Node<T> = Node(prio: int, data: T)

  function Swapped<T>(s: seq<T>, i: nat, j: nat): seq<T>
    requires i < |s| && j < |s|
  {
    s[i := s[j]][j := s[i]]
  }

  lemma SwappedKeeps<T>(s: seq<T>, i: nat, j: nat)
    requires i < |s| && j < |s|
    ensures multiset(Swapped(s, i, j)) == multiset(s)
  {
  }

  // ---- heap order

  ghost predicate Ordered<T>(s: seq<Node<T>>, j: nat)
    requires j < |s|
  {
    j > 0 ==> s[(j - 1) / 2].prio >= s[j].prio
  }

  ghost predicate Heap<T>(s: seq<Node<T>>) {
    forall j :: 0 <= j < |s| ==> Ordered(s, j)
  }

  /** The heap order but for one element that may be above its parent. */
  ghost predicate HeapBut<T>(s: seq<Node<T>>, i: nat) {
    && i < |s|
    && (forall j :: 0 <= j < |s| && j != i ==> Ordered(s, j))
    && (i > 0 ==> forall j :: 0 < j < |s| && (j - 1) / 2 == i ==> s[(i - 1) / 2].prio >= s[j].prio)
  }

  /** The heap order but for one element that may be below its children. */
  ghost predicate HeapUnder<T>(s: seq<Node<T>>, i: nat) {
    && i < |s|
    && (forall j :: 0 <= j < |s| && (j > 0 ==> (j - 1) / 2 != i) ==> Ordered(s, j))
    && (i > 0 ==> forall j :: 0 < j < |s| && (j - 1) / 2 == i ==> s[(i - 1) / 2].prio >= s[j].prio)
  }

  ghost predicate IsMax<T>(m: multiset<Node<T>>, e: Node<T>) {
    e in m && forall x :: x in m ==> x.prio <= e.prio
  }

  lemma {:induction false} RootIsLargest<T>(s: seq<Node<T>>, j: nat)
    requires Heap(s) && j < |s|
    ensures s[0].prio >= s[j].prio
    decreases j
  {
    assert Ordered(s, j);
    if j > 0 { RootIsLargest(s, (j - 1) / 2); }
  }

  /** The first element of a heap has the highest priority. */
  lemma RootIsMax<T>(s: seq<Node<T>>)
    requires Heap(s) && |s| > 0
    ensures IsMax(multiset(s), s[0])
  {
    forall x | x in multiset(s)
      ensures x.prio <= s[0].prio
    {
      var j :| 0 <= j < |s| && s[j] == x;
      RootIsLargest(s, j);
    }
  }

  /** One swap with the parent. */
  lemma SiftUpStep<T>(s: seq<Node<T>>, i: nat)
    requires HeapBut(s, i) && i > 0 && s[i].prio > s[(i - 1) / 2].prio
    ensures HeapBut(Swapped(s, i, (i - 1) / 2), (i - 1) / 2)
  {
    var p := (i - 1) / 2;
    var s' := Swapped(s, i, p);
    forall j | 0 <= j < |s| && j != p
      ensures Ordered(s', j)
    {
      if j > 0 && j != i && (j - 1) / 2 == p { assert Ordered(s, j); }
      if j > 0 && j != i && (j - 1) / 2 != p { assert Ordered(s, j); }
    }
    if p > 0 {
      assert Ordered(s, p);
      forall j | 0 < j < |s| && (j - 1) / 2 == p
        ensures s'[(p - 1) / 2].prio >= s'[j].prio
      {
        if j != i { assert Ordered(s, j); }
      }
    }
  }

  lemma SiftUpDone<T>(s: seq<Node<T>>, i: nat)
    requires HeapBut(s, i) && Ordered(s, i)
    ensures Heap(s)
  {
  }

  /** One swap with the larger child. */
  lemma SiftDownStep<T>(s: seq<Node<T>>, i: nat, c: nat)
    requires HeapUnder(s, i) && c < |s| && (c == 2 * i + 1 || c == 2 * i + 2) && s[i].prio < s[c].prio
    requires forall j :: 0 < j < |s| && (j - 1) / 2 == i ==> s[j].prio <= s[c].prio
    ensures HeapUnder(Swapped(s, i, c), c)
  {
    var s' := Swapped(s, i, c);
    forall j | 0 <= j < |s| && (j > 0 ==> (j - 1) / 2 != c)
      ensures Ordered(s', j)
    {
      if j > 0 && (j - 1) / 2 != i { assert Ordered(s, j); }
    }
    forall j | 0 < j < |s| && (j - 1) / 2 == c
      ensures s'[i].prio >= s'[j].prio
    {
      assert Ordered(s, j);
    }
  }

  lemma SiftDownDone<T>(s: seq<Node<T>>, i: nat)
    requires HeapUnder(s, i) && forall j :: 0 < j < |s| && (j - 1) / 2 == i ==> s[j].prio <= s[i].prio
    ensures Heap(s)
  {
    forall j | 0 <= j < |s|
      ensures Ordered(s, j)
    {
    }
  }

  lemma AppendedHeapBut<T>(s: seq<Node<T>>, e: Node<T>)
    requires Heap(s)
    ensures HeapBut(s + [e], |s|)
  {
    forall j | 0 <= j < |s|
      ensures Ordered(s + [e], j)
    {
      assert Ordered(s, j);
    }
  }

  /** Taking the root away and moving the last element there. */
  lemma LastToRoot<T>(s: seq<Node<T>>, s': seq<Node<T>>)
    requires Heap(s) && |s| == |s'| + 1
    requires |s'| > 0 ==> s'[0] == s[|s'|] && s'[1..] == s[1..|s'|]
    ensures multiset(s') == multiset(s) - multiset{s[0]}
    ensures |s'| > 0 ==> HeapUnder(s', 0)
  {
    var n := |s'|;
    if n > 0 {
      assert s == [s[0]] + s[1..n] + [s[n]];
      assert s' == [s[n]] + s[1..n];
      forall j | 0 <= j < n && (j > 0 ==> (j - 1) / 2 != 0)
        ensures Ordered(s', j)
      {
        assert Ordered(s, j);
        if j > 0 { assert s'[j] == s'[1..][j - 1] && s'[(j - 1) / 2] == s'[1..][(j - 1) / 2 - 1]; }
      }
    } else {
      assert s == [s[0]];
    }
  }

  // ---- what the two loops do, on any sequence

  /** sort_last from element `i` on. */
  function Risen<T>(s: seq<Node<T>>, i: nat): (r: seq<Node<T>>)
    requires i < |s|
    ensures |r| == |s|
    decreases i
  {
    if i == 0 || s[i].prio <= s[(i - 1) / 2].prio then s else Risen(Swapped(s, i, (i - 1) / 2), (i - 1) / 2)
  }

  /** What a slot at or past the end of the queue points to: sort_root reads such slots without
      comparing them with `n`, and finds there whatever was left, or never written. */
  type Behind<!T> = nat -> Node<T>

  function At<T>(s: seq<Node<T>>, k: nat, stale: Behind<T>): Node<T> {
    if k < |s| then s[k] else stale(k)
  }

  /** The comparisons of sort_root at element `i`: the child it is swapped with, or `i`. */
  function Pick<T>(s: seq<Node<T>>, i: nat, stale: Behind<T>): (c: nat)
    requires i < |s|
    ensures c == i || c == 2 * i + 1 || c == 2 * i + 2
    ensures c != i ==> s[i].prio < At(s, c, stale).prio
  {
    var c1, c2, x := 2 * i + 1, 2 * i + 2, s[i].prio;
    var p1, p2 := At(s, c1, stale).prio, At(s, c2, stale).prio;
    if x < p1 then (if x < p2 then (if p1 > p2 then c1 else c2) else c1)
    else if x < p2 then c2
    else i
  }

  /** sort_root from element `i` on.  A swap with a slot behind the end brings in what is there. */
  function Sunk<T>(s: seq<Node<T>>, i: nat, stale: Behind<T>): (r: seq<Node<T>>)
    requires i < |s|
    ensures |r| == |s|
    decreases |s| - i
  {
    var c := Pick(s, i, stale);
    if c == i then s
    else if c < |s| then Sunk(Swapped(s, i, c), c, stale)
    else s[i := stale(c)]
  }

  lemma {:induction false} RisenIsHeap<T>(s: seq<Node<T>>, i: nat)
    requires HeapBut(s, i)
    ensures Heap(Risen(s, i)) && multiset(Risen(s, i)) == multiset(s)
    decreases i
  {
    if i == 0 || s[i].prio <= s[(i - 1) / 2].prio {
      SiftUpDone(s, i);
    } else {
      SiftUpStep(s, i);
      SwappedKeeps(s, i, (i - 1) / 2);
      RisenIsHeap(Swapped(s, i, (i - 1) / 2), (i - 1) / 2);
    }
  }

  // ---- when sort_root does what it should

  /** The larger of the children inside the queue (the right one on a tie), or `i` if none is larger
      than element `i`. */
  function Larger<T>(s: seq<Node<T>>, i: nat): (c: nat)
    requires i < |s|
    ensures i <= c < |s| && (c == i || c == 2 * i + 1 || c == 2 * i + 2)
    ensures c != i ==> s[i].prio < s[c].prio
  {
    var c1, c2 := 2 * i + 1, 2 * i + 2;
    var c := if c2 < |s| && s[c1].prio <= s[c2].prio then c2 else if c1 < |s| then c1 else i;
    if s[i].prio < s[c].prio then c else i
  }

  /** No slot behind the end that is read on the way down is above what it is compared with: above the
      element itself or, where that goes to its left child and the right one is behind the end, not
      below that child. */
  predicate Quiet<T>(s: seq<Node<T>>, i: nat, stale: Behind<T>)
    requires i < |s|
    decreases |s| - i
  {
    var c1, c2, c := 2 * i + 1, 2 * i + 2, Larger(s, i);
    && (c1 >= |s| ==> stale(c1).prio <= s[i].prio)
    && (c2 >= |s| ==> if c == i then stale(c2).prio <= s[i].prio else stale(c2).prio < s[c].prio)
    && (c != i ==> Quiet(Swapped(s, i, c), c, stale))
  }

  /** One pick, where the slots behind the end do not interfere, and where they do. */
  lemma PickIs<T>(s: seq<Node<T>>, i: nat, stale: Behind<T>)
    requires i < |s|
    ensures var c1, c2, c := 2 * i + 1, 2 * i + 2, Larger(s, i);
      Pick(s, i, stale) < |s| <==>
        (c1 >= |s| ==> stale(c1).prio <= s[i].prio)
        && (c2 >= |s| ==> if c == i then stale(c2).prio <= s[i].prio else stale(c2).prio < s[c].prio)
    ensures Pick(s, i, stale) < |s| ==> Pick(s, i, stale) == Larger(s, i)
  {
  }

  lemma ReplacedDiffers<T>(s: seq<Node<T>>, i: nat, e: Node<T>)
    requires i < |s| && e != s[i]
    ensures multiset(s[i := e]) != multiset(s)
  {
    assert multiset(s[i := e]) == multiset(s) - multiset{s[i]} + multiset{e};
    assert multiset(s[i := e])[e] == multiset(s)[e] + 1;
  }

  lemma LargerIsLargest<T>(s: seq<Node<T>>, i: nat)
    requires i < |s|
    ensures forall j :: 0 < j < |s| && (j - 1) / 2 == i ==> s[j].prio <= s[Larger(s, i)].prio
  {
    forall j | 0 < j < |s| && (j - 1) / 2 == i
      ensures s[j].prio <= s[Larger(s, i)].prio
    {
      assert j == 2 * i + 1 || j == 2 * i + 2;
    }
  }

  /** One round that goes on. */
  lemma SinkOn<T>(s: seq<Node<T>>, i: nat, stale: Behind<T>, c: nat, s': seq<Node<T>>)
    requires i < |s| && c == Pick(s, i, stale) && i != c < |s| && s' == Swapped(s, i, c)
    ensures c > i && Sunk(s, i, stale) == Sunk(s', c, stale) && (Quiet(s, i, stale) <==> Quiet(s', c, stale))
    ensures multiset(s') == multiset(s)
    ensures HeapUnder(s, i) ==> HeapUnder(s', c)
  {
    PickIs(s, i, stale);
    SwappedKeeps(s, i, c);
    if HeapUnder(s, i) {
      LargerIsLargest(s, i);
      SiftDownStep(s, i, c);
    }
  }

  /** One round that is the last. */
  lemma SinkEnds<T>(s: seq<Node<T>>, i: nat, stale: Behind<T>, c: nat)
    requires HeapUnder(s, i) && c == Pick(s, i, stale) && (c == i || c >= |s|)
    ensures multiset(Sunk(s, i, stale)) == multiset(s) <==> Quiet(s, i, stale)
    ensures Quiet(s, i, stale) ==> Heap(Sunk(s, i, stale))
  {
    PickIs(s, i, stale);
    if c == i {
      LargerIsLargest(s, i);
      SiftDownDone(s, i);
    } else {
      ReplacedDiffers(s, i, stale(c));
    }
  }

  /** sort_root keeps the elements if and only if it is not disturbed, and then leaves a heap. */
  lemma {:induction false} SunkIff<T>(s: seq<Node<T>>, i: nat, stale: Behind<T>)
    requires HeapUnder(s, i)
    ensures multiset(Sunk(s, i, stale)) == multiset(s) <==> Quiet(s, i, stale)
    ensures Quiet(s, i, stale) ==> Heap(Sunk(s, i, stale))
    decreases |s| - i
  {
    var c := Pick(s, i, stale);
    if i != c < |s| {
      SinkOn(s, i, stale, c, Swapped(s, i, c));
      SunkIff(Swapped(s, i, c), c, stale);
    } else {
      SinkEnds(s, i, stale, c);
    }
  }

  /** Nothing behind the end is above any element. */
  ghost predicate Lowest<T>(s: seq<Node<T>>, stale: Behind<T>) {
    forall k, j :: k >= |s| && 0 <= j < |s| ==> stale(k).prio <= s[j].prio
  }

  lemma {:induction false} LowestIsQuiet<T>(s: seq<Node<T>>, i: nat, stale: Behind<T>)
    requires i < |s| && Lowest(s, stale)
    ensures Quiet(s, i, stale)
    decreases |s| - i
  {
    var c := Larger(s, i);
    if c != i { LowestIsQuiet(Swapped(s, i, c), c, stale); }
  }

  // ---- mmp_prioq_pop

  /** The others, with the last one in the place of the first. */
  function Rest<T>(s: seq<Node<T>>): (r: seq<Node<T>>)
    requires |s| > 0
    ensures |r| == |s| - 1
  {
    if |s| == 1 then [] else [s[|s| - 1]] + s[1..|s| - 1]
  }

  function Popped<T>(s: seq<Node<T>>, stale: Behind<T>): (r: seq<Node<T>>)
    requires |s| > 0
    ensures |r| == |s| - 1
  {
    if |s| == 1 then [] else Sunk(Rest(s), 0, stale)
  }

  predicate QuietPop<T>(s: seq<Node<T>>, stale: Behind<T>) {
    |s| > 1 ==> Quiet(Rest(s), 0, stale)
  }

  /** A pop takes out an element of the highest priority, and leaves a heap of exactly the others if and
      only if no slot behind the end disturbs it. */
  lemma PopIff<T>(s: seq<Node<T>>, stale: Behind<T>)
    requires Heap(s) && |s| > 0
    ensures IsMax(multiset(s), s[0])
    ensures (Heap(Popped(s, stale)) && multiset(Popped(s, stale)) == multiset(s) - multiset{s[0]})
      <==> QuietPop(s, stale)
    ensures multiset(Popped(s, stale)) == multiset(s) - multiset{s[0]} <==> QuietPop(s, stale)
  {
    RootIsMax(s);
    LastToRoot(s, Rest(s));
    if |s| > 1 { SunkIff(Rest(s), 0, stale); }
  }

  /** The shortest pop that is disturbed: the node freed for the first of two elements, which the swap
      has put behind the end, still reads as it did, and comes back in the place of the other. */
  lemma FreedComesBack<T>(s: seq<Node<T>>, stale: Behind<T>)
    requires |s| == 2 && s[0].prio > s[1].prio && stale(1) == s[0] && stale(2).prio < s[0].prio
    ensures Heap(s) && !QuietPop(s, stale) && Popped(s, stale) == [s[0]]
  {
    assert Rest(s) == [s[1]];
    assert Pick(Rest(s), 0, stale) == 1;
  }

  // ---- which element is first

  lemma {:induction false} BelowRoot<T>(s: seq<Node<T>>, i: nat, k: nat)
    requires HeapBut(s, i) && k < i
    ensures s[k].prio <= s[0].prio
    decreases k
  {
    assert Ordered(s, k);
    if k > 0 { BelowRoot(s, i, (k - 1) / 2); }
  }

  lemma {:induction false} RisenFirst<T>(s: seq<Node<T>>, i: nat)
    requires HeapBut(s, i)
    ensures Risen(s, i)[0] == if s[i].prio > s[0].prio then s[i] else s[0]
    decreases i
  {
    if i > 0 {
      var par := (i - 1) / 2;
      BelowRoot(s, i, par);
      if s[i].prio > s[par].prio {
        SiftUpStep(s, i);
        RisenFirst(Swapped(s, i, par), par);
      }
    }
  }

  /** An element comes in first if and only if it is above the one that is first: one of equal priority
      waits. */
  lemma InsertedFirst<T>(s: seq<Node<T>>, e: Node<T>)
    requires Heap(s)
    ensures Risen(s + [e], |s|)[0] == if s == [] || e.prio > s[0].prio then e else s[0]
  {
    AppendedHeapBut(s, e);
    RisenFirst(s + [e], |s|);
  }

  lemma {:induction false} SunkKeepsFront<T>(s: seq<Node<T>>, i: nat, stale: Behind<T>, k: nat)
    requires k < i < |s|
    ensures Sunk(s, i, stale)[k] == s[k]
    decreases |s| - i
  {
    var c := Pick(s, i, stale);
    if i != c < |s| { SunkKeepsFront(Swapped(s, i, c), c, stale, k); }
  }

  /** What sort_root leaves first: the first of three is kept unless a child is above it, and of two
      children of equal priority the right one comes up. */
  lemma SunkFirst<T>(s: seq<Node<T>>, stale: Behind<T>)
    requires |s| > 0 && Quiet(s, 0, stale)
    ensures Sunk(s, 0, stale)[0] ==
      if |s| == 1 then s[0]
      else if |s| == 2 then (if s[0].prio < s[1].prio then s[1] else s[0])
      else var m := if s[1].prio > s[2].prio then s[1] else s[2]; if s[0].prio < m.prio then m else s[0]
  {
    PickIs(s, 0, stale);
    var c := Pick(s, 0, stale);
    if c != 0 { SunkKeepsFront(Swapped(s, 0, c), c, stale, 0); }
  }

  /** Who is first after an undisturbed pop. */
  lemma PoppedFirst<T>(s: seq<Node<T>>, stale: Behind<T>)
    requires Heap(s) && |s| >= 2 && QuietPop(s, stale)
    ensures var last := s[|s| - 1];
      Popped(s, stale)[0] ==
      if |s| == 2 then s[1]
      else if |s| == 3 then (if s[2].prio < s[1].prio then s[1] else s[2])
      else var m := if s[1].prio > s[2].prio then s[1] else s[2]; if last.prio < m.prio then m else last
  {
    SunkFirst(Rest(s), stale);
  }

  // ---- the queue

  class PrioQ<T(0)> {
    var arr: array<Node<T>>
    var n: nat

    ghost predicate Valid()
      reads this
    {
      n <= arr.Length
    }

    /** What is in the queue, in heap order. */
    ghost function Elems(): (s: seq<Node<T>>)
      requires Valid()
      reads this, arr
      ensures |s| == n
    {
      arr[..n]
    }

    /** mmp_prioq_create */
    constructor (prealloc: nat)
      ensures Valid() && fresh(arr) && n == 0 && arr.Length == prealloc
    {
      arr := new Node<T>[prealloc];
      n := 0;
    }

    method Swap(i: nat, j: nat)
      requires Valid() && i < n && j < n
      modifies arr
      ensures Elems() == Swapped(old(Elems()), i, j)
    {
      ghost var s := Swapped(Elems(), i, j);
      var tmp := arr[j];
      arr[j] := arr[i];
      arr[i] := tmp;
      assert Elems() == s;
    }

    /** enlarge */
    method Enlarge()
      requires Valid()
      modifies this`arr
      ensures Valid() && fresh(arr) && arr.Length == old(arr.Length) + 10 && Elems() == old(Elems())
    {
      var nuArr := new Node<T>[arr.Length + 10];
      forall i | 0 <= i < n {
        nuArr[i] := arr[i];
      }
      arr := nuArr;
    }

    /** sort_last */
    method SortLast()
      requires Valid() && n > 0
      modifies arr
      ensures Elems() == Risen(old(Elems()), n - 1)
    {
      ghost var goal := Risen(Elems(), n - 1);
      var i := n - 1;
      while i != 0
        invariant 0 <= i < n && Risen(Elems(), i) == goal
        decreases i
      {
        var par := (i - 1) / 2;
        ghost var s := Elems();
        assert s[i] == arr[i] && s[par] == arr[par];
        if arr[i].prio <= arr[par].prio { break; }
        Swap(i, par);
        i := par;
      }
    }

    /** The priority that reading a slot gives, inside the queue or behind its end. */
    function PrioIn(k: nat, stale: Behind<T>): int
      requires Valid()
      reads this, arr
    {
      if k < n then arr[k].prio else stale(k).prio
    }

    /** A swap with a child, wherever that is.  What it leaves behind the end is not told. */
    method SwapDown(i: nat, c: nat, stale: Behind<T>)
      requires Valid() && i < c
      modifies arr
      ensures Elems() ==
        if c < n then Swapped(old(Elems()), i, c) else if i < n then old(Elems())[i := stale(c)] else old(Elems())
    {
      if c < n {
        Swap(i, c);
      } else if i < n {
        ghost var s := Elems()[i := stale(c)];
        arr[i] := stale(c);
        assert Elems() == s;
      }
    }

    /** The comparisons of one round of sort_root. */
    method PickChild(i: nat, stale: Behind<T>) returns (c: nat)
      requires Valid()
      ensures i < n ==> c == Pick(Elems(), i, stale)
      ensures i >= n ==> c == i || c > i
    {
      var c1, c2 := 2 * i + 1, 2 * i + 2;
      assert forall j :: 0 <= j < n ==> Elems()[j] == arr[j];
      if PrioIn(i, stale) < PrioIn(c1, stale) {
        if PrioIn(i, stale) < PrioIn(c2, stale) {
          c := if PrioIn(c1, stale) > PrioIn(c2, stale) then c1 else c2;
        } else {
          c := c1;
        }
      } else {
        if PrioIn(i, stale) < PrioIn(c2, stale) {
          c := c2;
        } else {
          c := i;
        }
      }
    }

    /** sort_root; it is called on an emptied queue, too. */
    method SortRoot(stale: Behind<T>)
      requires Valid()
      modifies arr
      ensures Elems() == if n == 0 then [] else Sunk(old(Elems()), 0, stale)
    {
      var i := 0;
      var more := true;
      ghost var goal := if n == 0 then [] else Sunk(Elems(), 0, stale);
      while more
        invariant more ==> if n == 0 then i == 0 else i < n && Sunk(Elems(), i, stale) == goal
        invariant !more ==> Elems() == goal
        decreases more, n - i
      {
        var c := PickChild(i, stale);
        if c == i { break; }
        SwapDown(i, c, stale);
        i := c;
        more := i < n;
      }
    }

    /** mmp_prioq_insert */
    method Insert(data: T, prio: int) returns (ret: Ret)
      requires Valid()
      modifies this, arr
      ensures Valid() && (arr == old(arr) || fresh(arr)) && ret == Ok && n == old(n) + 1
      ensures Elems() == Risen(old(Elems()) + [Node(prio, data)], old(n))
      ensures Heap(old(Elems())) ==>
        Heap(Elems()) && multiset(Elems()) == multiset(old(Elems())) + multiset{Node(prio, data)}
    {
      ghost var s := Elems();
      if n >= arr.Length {
        Enlarge();
      }
      arr[n] := Node(prio, data);
      n := n + 1;
      assert Elems() == s + [Node(prio, data)];
      SortLast();
      InsertedIsHeap(s, Node(prio, data));
      ret := Ok;
    }

    /** mmp_prioq_pop */
    method Pop(stale: Behind<T>) returns (ret: Ret, e: Option<Node<T>>)
      requires Valid()
      modifies this`n, arr
      ensures Valid()
      ensures old(n) == 0 ==> ret == Empty && e == None && n == 0
      ensures old(n) > 0 ==>
        ret == Ok && n == old(n) - 1 && e == Some(old(Elems())[0]) && Elems() == Popped(old(Elems()), stale)
      ensures old(n) > 0 && Heap(old(Elems())) ==> IsMax(multiset(old(Elems())), e.value)
      ensures old(n) > 0 && Heap(old(Elems())) ==>
        (QuietPop(old(Elems()), stale) <==>
          Heap(Elems()) && multiset(Elems()) == multiset(old(Elems())) - multiset{e.value})
    {
      if n == 0 {
        return Empty, None;
      }
      ghost var s := Elems();
      e := Some(arr[0]);
      n := n - 1;
      arr[0] := arr[n];
      assert Elems() == Rest(s);
      SortRoot(stale);
      if Heap(s) { PopIff(s, stale); }
      ret := Ok;
    }
  }

  lemma InsertedIsHeap<T>(s: seq<Node<T>>, e: Node<T>)
    ensures Heap(s) ==> Heap(Risen(s + [e], |s|)) && multiset(Risen(s + [e], |s|)) == multiset(s) + multiset{e}
  {
    if Heap(s) {
      AppendedHeapBut(s, e);
      RisenIsHeap(s + [e], |s|);
    }
  }
}
