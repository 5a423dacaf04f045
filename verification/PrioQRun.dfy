/**
 Whole runs of a priority queue: nothing is lost or made up, and every pop takes an element of the
 highest priority there is.
 */
module PrioQRun {
  import opened Status
  import opened PrioQ

  /** A pop comes with what the slots behind the end read as at that time. */
  datatype Op<!T> = Insert(prio: int, data: T) | Pop(stale: Behind<T>)

  /** What an operation gives back: the popped element, if any. */
  type Answer<T> = Option<Node<T>>

  /** One operation takes the contents from `m` to `m'` and answers `e`: a pop takes an element of the
      highest priority out, or answers nothing when there is none. */
  ghost predicate StepOk<T>(m: multiset<Node<T>>, op: Op<T>, e: Answer<T>, m': multiset<Node<T>>) {
    match op
    case Insert(prio, data) => e == None && m' == m + multiset{Node(prio, data)}
    case Pop(_) =>
      if m == multiset{} then e == None && m' == m
      else e.Some? && IsMax(m, e.value) && m' == m - multiset{e.value}
  }

  /** `ms` are the contents between the operations, from the empty queue on. */
  ghost predicate Explains<T>(ops: seq<Op<T>>, out: seq<Answer<T>>, ms: seq<multiset<Node<T>>>) {
    && |out| == |ops| && |ms| == |ops| + 1 && ms[0] == multiset{}
    && forall k :: 0 <= k < |ops| ==> StepOk(ms[k], ops[k], out[k], ms[k + 1])
  }

  ghost predicate AllAtMost<T>(m: multiset<Node<T>>, prio: int) {
    forall x :: x in m ==> x.prio <= prio
  }

  /** Pops with no insert in between come in non-increasing priority order, and leave nothing above
      the first of them. */
  lemma {:induction false} PopsDescend<T>(ops: seq<Op<T>>, out: seq<Answer<T>>, ms: seq<multiset<Node<T>>>, i: nat,
                                          j: nat)
    requires Explains(ops, out, ms) && i <= j < |ops|
    requires forall k :: i <= k <= j ==> ops[k].Pop? && out[k].Some?
    ensures out[i].value.prio >= out[j].value.prio && AllAtMost(ms[j + 1], out[i].value.prio)
    decreases j
  {
    assert StepOk(ms[j], ops[j], out[j], ms[j + 1]);
    if i < j { PopsDescend(ops, out, ms, i, j - 1); }
    assert AllAtMost(ms[j], out[i].value.prio);
  }

  /** Elements are conserved: as many as were inserted are popped or left. */
  ghost function Inserted<T>(ops: seq<Op<T>>): multiset<Node<T>> {
    if ops == [] then multiset{} else
    var op := ops[|ops| - 1];
    Inserted(ops[..|ops| - 1]) + if op.Insert? then multiset{Node(op.prio, op.data)} else multiset{}
  }

  ghost function PoppedIn<T>(out: seq<Answer<T>>): multiset<Node<T>> {
    if out == [] then multiset{} else
    var e := out[|out| - 1];
    PoppedIn(out[..|out| - 1]) + if e.Some? then multiset{e.value} else multiset{}
  }

  lemma {:induction false} Conserved<T>(ops: seq<Op<T>>, out: seq<Answer<T>>, ms: seq<multiset<Node<T>>>)
    requires Explains(ops, out, ms)
    ensures Inserted(ops) == PoppedIn(out) + ms[|ops|]
  {
    if ops != [] {
      var n := |ops| - 1;
      ExplainsPrefix(ops, out, ms, ops[..n], out[..n], ms[..n + 1]);
      Conserved(ops[..n], out[..n], ms[..n + 1]);
      assert StepOk(ms[n], ops[n], out[n], ms[n + 1]);
      StepConserves(ms[n], ops[n], out[n], ms[n + 1]);
    }
  }

  lemma StepConserves<T>(m: multiset<Node<T>>, op: Op<T>, e: Answer<T>, m': multiset<Node<T>>)
    requires StepOk(m, op, e, m')
    ensures m + (if op.Insert? then multiset{Node(op.prio, op.data)} else multiset{})
      == (if e.Some? then multiset{e.value} else multiset{}) + m'
  {
  }

  lemma ExplainsPrefix<T>(ops: seq<Op<T>>, out: seq<Answer<T>>, ms: seq<multiset<Node<T>>>,
                          ops': seq<Op<T>>, out': seq<Answer<T>>, ms': seq<multiset<Node<T>>>)
    requires Explains(ops, out, ms) && |ops| > 0
    requires ops' == ops[..|ops| - 1] && out' == out[..|ops| - 1] && ms' == ms[..|ops|]
    ensures Explains(ops', out', ms')
  {
    forall k | 0 <= k < |ops'|
      ensures StepOk(ms'[k], ops'[k], out'[k], ms'[k + 1])
    {
      assert StepOk(ms[k], ops[k], out[k], ms[k + 1]);
    }
  }

  // ---- the runs of the code

  /** What one operation of the code does to the elements, in heap order. */
  function Does<T>(s: seq<Node<T>>, op: Op<T>): (seq<Node<T>>, Answer<T>) {
    match op
    case Insert(prio, data) => (Risen(s + [Node(prio, data)], |s|), None)
    case Pop(stale) => if s == [] then (s, None) else (Popped(s, stale), Some(s[0]))
  }

  /** `ss` are the elements between the operations. */
  ghost predicate Follows<T>(ops: seq<Op<T>>, out: seq<Answer<T>>, ss: seq<seq<Node<T>>>) {
    && |out| == |ops| && |ss| == |ops| + 1 && ss[0] == []
    && forall k :: 0 <= k < |ops| ==> (ss[k + 1], out[k]) == Does(ss[k], ops[k])
  }

  predicate QuietOp<T>(s: seq<Node<T>>, op: Op<T>) {
    op.Pop? ==> QuietPop(s, op.stale)
  }

  /** One operation on a heap does what it should if and only if it is no disturbed pop, and then leaves
      a heap. */
  lemma StepIff<T>(s: seq<Node<T>>, op: Op<T>, e: Answer<T>, s': seq<Node<T>>)
    requires Heap(s) && (s', e) == Does(s, op)
    ensures StepOk(multiset(s), op, e, multiset(s')) <==> QuietOp(s, op)
    ensures QuietOp(s, op) ==> Heap(s')
  {
    match op {
      case Insert(prio, data) => InsertedIsHeap(s, Node(prio, data));
      case Pop(stale) =>
        if s != [] {
          assert s[0] in multiset(s);
          PopIff(s, stale);
        }
    }
  }

  lemma {:induction false} HeapSoFar<T>(ops: seq<Op<T>>, out: seq<Answer<T>>, ss: seq<seq<Node<T>>>, n: nat)
    requires Follows(ops, out, ss) && n <= |ops| && forall k :: 0 <= k < n ==> QuietOp(ss[k], ops[k])
    ensures Heap(ss[n])
  {
    if n > 0 {
      HeapSoFar(ops, out, ss, n - 1);
      StepIff(ss[n - 1], ops[n - 1], out[n - 1], ss[n]);
    }
  }

  ghost function Contents<T>(ss: seq<seq<Node<T>>>): (ms: seq<multiset<Node<T>>>)
    ensures |ms| == |ss| && forall k :: 0 <= k < |ss| ==> ms[k] == multiset(ss[k])
  {
    seq(|ss|, k requires 0 <= k < |ss| => multiset(ss[k]))
  }

  lemma {:induction false} QuietIfExplained<T>(ops: seq<Op<T>>, out: seq<Answer<T>>, ss: seq<seq<Node<T>>>, n: nat)
    requires Follows(ops, out, ss) && Explains(ops, out, Contents(ss)) && n <= |ops|
    ensures forall k :: 0 <= k < n ==> QuietOp(ss[k], ops[k])
  {
    if n > 0 {
      QuietIfExplained(ops, out, ss, n - 1);
      HeapSoFar(ops, out, ss, n - 1);
      StepIff(ss[n - 1], ops[n - 1], out[n - 1], ss[n]);
    }
  }

  /** A whole run conserves its elements, every pop taking one of the highest priority, if and only if
      none of its pops is disturbed by what is behind the end. */
  lemma RunIff<T>(ops: seq<Op<T>>, out: seq<Answer<T>>, ss: seq<seq<Node<T>>>)
    requires Follows(ops, out, ss)
    ensures Explains(ops, out, Contents(ss)) <==> forall k :: 0 <= k < |ops| ==> QuietOp(ss[k], ops[k])
  {
    if Explains(ops, out, Contents(ss)) { QuietIfExplained(ops, out, ss, |ops|); }
    if forall k :: 0 <= k < |ops| ==> QuietOp(ss[k], ops[k]) {
      forall k | 0 <= k < |ops|
        ensures StepOk(multiset(ss[k]), ops[k], out[k], multiset(ss[k + 1]))
      {
        HeapSoFar(ops, out, ss, k);
        StepIff(ss[k], ops[k], out[k], ss[k + 1]);
      }
    }
  }

  /** One operation of a run. */
  method Step<T(0)>(q: PrioQ<T>, op: Op<T>) returns (e: Answer<T>)
    requires q.Valid()
    modifies q, q.arr
    ensures q.Valid() && (q.arr == old(q.arr) || fresh(q.arr))
    ensures (q.Elems(), e) == Does(old(q.Elems()), op)
  {
    e := None;
    match op {
      case Insert(prio, data) =>
        var ret := q.Insert(data, prio);
      case Pop(stale) =>
        var ret;
        ret, e := q.Pop(stale);
    }
  }

  /** Any run on a queue made for it: its answers, and the queue behind every operation. */
  method Run<T(0)>(ops: seq<Op<T>>, prealloc: nat) returns (out: seq<Answer<T>>, ss: seq<seq<Node<T>>>)
    ensures Follows(ops, out, ss)
    ensures (forall k :: 0 <= k < |ops| ==> QuietOp(ss[k], ops[k])) ==>
      Explains(ops, out, Contents(ss)) && Inserted(ops) == PoppedIn(out) + multiset(ss[|ops|])
  {
    var q := new PrioQ<T>(prealloc);
    out, ss := [], [[]];
    var i := 0;
    while i < |ops|
      invariant 0 <= i <= |ops| && q.Valid() && fresh(q) && fresh(q.arr)
      invariant |out| == i && |ss| == i + 1 && ss[0] == [] && q.Elems() == ss[i]
      invariant forall k :: 0 <= k < i ==> (ss[k + 1], out[k]) == Does(ss[k], ops[k])
    {
      var e := Step(q, ops[i]);
      out, ss := out + [e], ss + [q.arr[..q.n]];
      i := i + 1;
    }
    assert Follows(ops, out, ss);
    if forall k :: 0 <= k < |ops| ==> QuietOp(ss[k], ops[k]) {
      RunIff(ops, out, ss);
      Conserved(ops, out, Contents(ss));
    }
  }
}
