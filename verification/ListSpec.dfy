/**
 src/mmp_list.c on the level of sequences: what its operations do to the data of a list, and what
 its comparer-driven operations rely on.
 */
module ListSpec {
  import opened Status

  type Comparer = (Ptr, Ptr) -> int

  /** What the callers promise of a comparer: a total preorder, with sign. */
  ghost predicate TotalPreorder(comp: Comparer) {
    && (forall a, b {:trigger comp(a, b)} :: comp(a, b) <= 0 <==> comp(b, a) >= 0)
    && (forall a, b, c {:trigger comp(a, b), comp(b, c)} :: comp(a, b) <= 0 && comp(b, c) <= 0 ==> comp(a, c) <= 0)
  }

  ghost predicate Descending(s: seq<Ptr>, comp: Comparer) {
    forall i, j :: 0 <= i < j < |s| ==> comp(s[i], s[j]) >= 0
  }

  ghost predicate Ascending(s: seq<Ptr>, comp: Comparer) {
    forall i, j :: 0 <= i < j < |s| ==> comp(s[i], s[j]) <= 0
  }

  function Reversed(s: seq<Ptr>): (r: seq<Ptr>)
    ensures |r| == |s| && forall i :: 0 <= i < |s| ==> r[i] == s[|s| - 1 - i]
  {
    seq(|s|, i requires 0 <= i < |s| => s[|s| - 1 - i])
  }

  // ---- sorted insertion

  /** The first element not above `d`, where mmp_list_add_data_sorted stops, or the end. */
  function Place(s: seq<Ptr>, d: Ptr, comp: Comparer): (i: nat)
    ensures i <= |s|
    ensures forall j :: 0 <= j < i ==> comp(s[j], d) > 0
    ensures i < |s| ==> comp(s[i], d) <= 0
  {
    if s == [] || comp(s[0], d) <= 0 then 0 else 1 + Place(s[1..], d, comp)
  }

  /** The loop that looks for it. */
  lemma {:induction false} PlaceIs(s: seq<Ptr>, d: Ptr, comp: Comparer, i: nat)
    requires i <= |s| && (forall j :: 0 <= j < i ==> comp(s[j], d) > 0) && (i < |s| ==> comp(s[i], d) <= 0)
    ensures Place(s, d, comp) == i
  {
    var p := Place(s, d, comp);
    assert p < |s| ==> comp(s[p], d) <= 0;
  }

  function Insert(s: seq<Ptr>, i: nat, d: Ptr): seq<Ptr>
    requires i <= |s|
  {
    s[..i] + [d] + s[i..]
  }

  function Remove(s: seq<Ptr>, i: nat): seq<Ptr>
    requires i < |s|
  {
    s[..i] + s[i + 1..]
  }

  lemma InsertedDescending(s: seq<Ptr>, p: nat, d: Ptr, comp: Comparer)
    requires Descending(s, comp) && p <= |s|
    requires forall j :: 0 <= j < p ==> comp(s[j], d) >= 0
    requires forall j :: p <= j < |s| ==> comp(d, s[j]) >= 0
    ensures Descending(Insert(s, p, d), comp)
  {
    var s' := Insert(s, p, d);
    forall i, j | 0 <= i < j < |s'|
      ensures comp(s'[i], s'[j]) >= 0
    {
      var i', j' := if i < p then i else i - 1, if j < p then j else j - 1;
      assert (i != p ==> s'[i] == s[i']) && (j != p ==> s'[j] == s[j']);
    }
  }

  lemma NotAbove(a: Ptr, b: Ptr, d: Ptr, comp: Comparer)
    requires TotalPreorder(comp) && (a == b || comp(b, a) >= 0) && comp(b, d) <= 0
    ensures comp(d, a) >= 0
  {
    if a != b { assert comp(a, b) <= 0; }
  }

  lemma PlaceFacts(s: seq<Ptr>, d: Ptr, comp: Comparer, j: nat)
    requires Descending(s, comp) && Place(s, d, comp) <= j < |s|
    ensures var p := Place(s, d, comp); comp(s[p], d) <= 0 && (s[j] == s[p] || comp(s[p], s[j]) >= 0)
  {
  }

  lemma NotAboveTail(s: seq<Ptr>, d: Ptr, comp: Comparer, j: nat)
    requires TotalPreorder(comp) && Descending(s, comp) && Place(s, d, comp) <= j < |s|
    ensures comp(d, s[j]) >= 0
  {
    PlaceFacts(s, d, comp, j);
    NotAbove(s[j], s[Place(s, d, comp)], d, comp);
  }

  /** mmp_list_add_data_sorted keeps a descending list descending. */
  lemma InsertKeepsDescending(s: seq<Ptr>, d: Ptr, comp: Comparer)
    requires TotalPreorder(comp) && Descending(s, comp)
    ensures Descending(Insert(s, Place(s, d, comp), d), comp)
  {
    forall j | Place(s, d, comp) <= j < |s|
      ensures comp(d, s[j]) >= 0
    {
      NotAboveTail(s, d, comp, j);
    }
    InsertedDescending(s, Place(s, d, comp), d, comp);
  }

  lemma RemoveKeepsDescending(s: seq<Ptr>, i: nat, comp: Comparer)
    requires Descending(s, comp) && i < |s|
    ensures Descending(Remove(s, i), comp)
  {
  }

  // ---- finding

  /** mmp_list_find_data_lambda: the first element equal to `d`. */
  function FindScan(s: seq<Ptr>, d: Ptr, comp: Comparer): (r: Option<nat>)
    ensures r.Some? ==> r.value < |s| && comp(d, s[r.value]) == 0 && forall j :: 0 <= j < r.value ==> comp(d, s[j]) != 0
    ensures r.None? ==> forall j :: 0 <= j < |s| ==> comp(d, s[j]) != 0
  {
    if s == [] then None
    else if comp(d, s[0]) == 0 then Some(0)
    else match FindScan(s[1..], d, comp)
      case None => None
      case Some(i) => Some(i + 1)
  }

  lemma FindScanIs(s: seq<Ptr>, d: Ptr, comp: Comparer, i: nat)
    requires i < |s| && comp(d, s[i]) == 0 && forall j :: 0 <= j < i ==> comp(d, s[j]) != 0
    ensures FindScan(s, d, comp) == Some(i)
  {
    var r := FindScan(s, d, comp);
    assert r.Some? && r.value >= i;
  }

  /** mmp_list_find_data_sorted: gives up at the first element below `d`. */
  function FindSorted(s: seq<Ptr>, d: Ptr, comp: Comparer): (r: Option<nat>) {
    if s == [] then None
    else if comp(d, s[0]) < 0 then
      match FindSorted(s[1..], d, comp)
      case None => None
      case Some(i) => Some(i + 1)
    else if comp(d, s[0]) == 0 then Some(0)
    else None
  }

  /** Past the elements above `d` the answer is decided by the next one. */
  lemma {:induction false} FindSortedSkips(s: seq<Ptr>, d: Ptr, comp: Comparer, i: nat)
    requires i <= |s| && forall j :: 0 <= j < i ==> comp(d, s[j]) < 0
    ensures i == |s| ==> FindSorted(s, d, comp) == None
    ensures i < |s| && comp(d, s[i]) >= 0 ==> FindSorted(s, d, comp) == if comp(d, s[i]) == 0 then Some(i) else None
  {
    if i > 0 { FindSortedSkips(s[1..], d, comp, i - 1); }
  }

  /** In a list kept in descending order giving up early loses nothing. */
  lemma {:induction false} FindSortedIsScan(s: seq<Ptr>, d: Ptr, comp: Comparer)
    requires TotalPreorder(comp) && Descending(s, comp)
    ensures FindSorted(s, d, comp) == FindScan(s, d, comp)
  {
    if s != [] {
      if comp(d, s[0]) < 0 {
        FindSortedIsScan(s[1..], d, comp);
      } else if comp(d, s[0]) > 0 {
        forall j | 0 <= j < |s|
          ensures comp(d, s[j]) != 0
        {
          AboveFirst(s, d, comp, j);
        }
      }
    }
  }

  lemma AboveFirst(s: seq<Ptr>, d: Ptr, comp: Comparer, j: nat)
    requires TotalPreorder(comp) && Descending(s, comp) && j < |s| && comp(d, s[0]) > 0
    ensures comp(d, s[j]) > 0
  {
    if j > 0 {
      assert comp(s[0], s[j]) >= 0;
      assert comp(s[j], s[0]) <= 0 && comp(s[0], d) <= 0;
      assert comp(d, s[0]) > 0;
    }
  }

  // ---- selection sort

  ghost predicate IsLeast(s: seq<Ptr>, from: nat, m: nat, comp: Comparer) {
    from <= m < |s| && forall j :: from <= j < |s| ==> comp(s[m], s[j]) <= 0
  }

  /** Nothing in front of it, from there on, is as low. */
  ghost predicate IsFirstLeast(s: seq<Ptr>, from: nat, m: nat, comp: Comparer) {
    IsLeast(s, from, m, comp) && forall j :: from <= j < m ==> comp(s[j], s[m]) > 0
  }

  /** The same, as far as slot `i`. */
  ghost predicate LeastBefore(s: seq<Ptr>, from: nat, m: nat, i: nat, comp: Comparer) {
    && from <= m < |s| && i <= |s|
    && (forall j :: from <= j < i ==> comp(s[m], s[j]) <= 0)
    && (forall j :: from <= j < m ==> comp(s[j], s[m]) > 0)
  }

  /** What is not below the least so far is above the next one, if that is lower. */
  lemma LowerThanAll(s: seq<Ptr>, m: nat, i: nat, j: nat, comp: Comparer)
    requires TotalPreorder(comp) && m < |s| && i < |s| && j < |s|
    requires comp(s[m], s[j]) <= 0 && comp(s[m], s[i]) > 0
    ensures comp(s[j], s[i]) > 0 && comp(s[i], s[j]) <= 0
  {
  }

  /** Keeping the smaller of the least so far and the next one. */
  lemma LeastStep(s: seq<Ptr>, k: nat, m: nat, i: nat, comp: Comparer)
    requires TotalPreorder(comp) && LeastBefore(s, k, m, i, comp) && k <= i < |s| && (m < i || m == k)
    ensures LeastBefore(s, k, if comp(s[m], s[i]) > 0 then i else m, i + 1, comp)
  {
    if comp(s[m], s[i]) > 0 {
      assert comp(s[i], s[i]) <= 0;
      forall j | k <= j < i
        ensures comp(s[j], s[i]) > 0 && comp(s[i], s[j]) <= 0
      {
        LowerThanAll(s, m, i, j, comp);
      }
    }
  }

  function Swapped(s: seq<Ptr>, i: nat, j: nat): seq<Ptr>
    requires i < |s| && j < |s|
  {
    s[i := s[j]][j := s[i]]
  }

  /** The first `k` places are settled: in order, and nothing behind them is below them. */
  ghost predicate SettledTo(s: seq<Ptr>, k: nat, comp: Comparer) {
    k <= |s| && forall i, j :: 0 <= i < k && i < j < |s| ==> comp(s[i], s[j]) <= 0
  }

  lemma SwappedSettles(s: seq<Ptr>, k: nat, m: nat, comp: Comparer)
    requires SettledTo(s, k, comp) && IsLeast(s, k, m, comp)
    ensures SettledTo(Swapped(s, k, m), k + 1, comp) && multiset(Swapped(s, k, m)) == multiset(s)
  {
    var s' := Swapped(s, k, m);
    forall i, j | 0 <= i < k + 1 && i < j < |s'|
      ensures comp(s'[i], s'[j]) <= 0
    {
      var j' := if j == m then k else if j == k then m else j;
      assert s'[j] == s[j'];
      if i < k { assert comp(s[i], s[j']) <= 0; } else { assert comp(s[m], s[j']) <= 0; }
    }
  }
}
