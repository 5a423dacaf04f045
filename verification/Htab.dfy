/**
 src/mmp_htab.c: buckets of doubly linked elements.  Each method is proved to do to the chains what
 HtabSpec.dfy says.
 */
module Htab {
  import opened Status
  import opened HtabSpec

  class Elem {
    var key: string
    var val: Ptr
    var next: Elem?
    var prev: Elem?

    /** An element in front of another, or of none. */
    constructor (key: string, val: Ptr, next: Elem?)
      ensures this.key == key && this.val == val && this.next == next && prev == null
    {
      this.key, this.val, this.next, prev := key, val, next, null;
    }
  }

  class Htab {
    var ptrs: array<Elem?>
    /** The hash of a key's first so many characters, already reduced by the size. */
    const hash: (string, int) -> nat
    /** What is behind each bucket: the pairs, the elements that hold them, and all those elements. */
    ghost var table: Table
    ghost var chains: seq<seq<Elem>>
    ghost var elems: set<Elem>

    function Bucket(key: string): nat {
      hash(key, WHOLE_KEY)
    }

    /** Every key is in its own bucket and once, and the chains are linked both ways. */
    ghost predicate Valid()
      reads this, ptrs, elems
    {
      && Placed(table, Bucket)
      && (forall k, n :: hash(k, n) < ptrs.Length)
      && Linked()
    }

    ghost predicate Linked()
      reads this, ptrs, elems
    {
      && |chains| == |table| == ptrs.Length
      && (forall b :: 0 <= b < |chains| ==> |chains[b]| == |table[b]| && ptrs[b] == At(chains[b], 0))
      && (forall b, i :: 0 <= b < |chains| && 0 <= i < |chains[b]| ==> ElemOk(b, i))
    }

    ghost predicate ElemOk(b: int, i: int)
      requires 0 <= b < |chains| == |table| && 0 <= i < |chains[b]| == |table[b]|
      reads this, elems
    {
      var e := chains[b][i];
      e in elems && e.next == At(chains[b], i + 1) && e.prev == At(chains[b], i - 1)
        && Pair(e.key, e.val) == table[b][i]
    }

    /** No element is in two places. */
    lemma OnePlace(b: nat, i: nat, b': nat, i': nat)
      requires Valid() && b < |chains| && i < |chains[b]| && b' < |chains| && i' < |chains[b']|
      ensures chains[b][i] == chains[b'][i'] ==> b == b' && i == i'
    {
      if chains[b][i] == chains[b'][i'] {
        assert ElemOk(b, i) && ElemOk(b', i');
        assert table[b][i].key == table[b'][i'].key;
      }
    }

    ghost predicate Alone(b: int, i: int)
      requires 0 <= b < |chains| && 0 <= i < |chains[b]|
      reads this
    {
      forall b', i' :: 0 <= b' < |chains| && 0 <= i' < |chains[b']| && chains[b'][i'] == chains[b][i]
        ==> b' == b && i' == i
    }

    lemma AllAlone(b: nat)
      requires Valid() && b < |chains|
      ensures forall i :: 0 <= i < |chains[b]| ==> Alone(b, i)
    {
      forall i, b', i' | 0 <= i < |chains[b]| && 0 <= b' < |chains| && 0 <= i' < |chains[b']|
        ensures chains[b'][i'] == chains[b][i] ==> b' == b && i' == i
      {
        OnePlace(b', i', b, i);
      }
    }

    /** The element at a place, or NULL past the ends. */
    static ghost function At(c: seq<Elem>, i: int): Elem? {
      if 0 <= i < |c| then c[i] else null
    }

    /** mmp_htab_create */
    constructor (size: nat, hash: (string, int) -> nat)
      requires size > 0 && forall k, n :: hash(k, n) < size
      ensures Valid() && fresh(ptrs) && elems == {}
      ensures table == NoChains(size) && this.hash == hash
    {
      this.hash := hash;
      ptrs := new Elem?[size](_ => null);
      table, chains, elems := NoChains(size), seq(size, _ => []), {};
    }

    /** lookup */
    method Find(key: string, keylen: int) returns (np: Elem?, ghost i: nat)
      requires Valid()
      ensures var b := hash(key, keylen); np == At(chains[b], Place(table[b], key))
      ensures i == Place(table[hash(key, keylen)], key)
    {
      ghost var b := hash(key, keylen);
      np, i := ptrs[hash(key, keylen)], 0;
      while np != null
        invariant 0 <= i <= |chains[b]| && np == At(chains[b], i)
        invariant forall j :: 0 <= j < i ==> table[b][j].key != key
        decreases |chains[b]| - i
      {
        assert ElemOk(b, i);
        if key == np.key { break; }
        np := np.next;
        i := i + 1;
      }
      PlaceIs(table[b], key, i);
    }

    /** mmp_htab_lookup */
    method Lookup(key: string) returns (r: Ptr)
      requires Valid()
      ensures r == HtabSpec.Lookup(table, Bucket(key), key)
    {
      r := LookupNz(key, WHOLE_KEY);
    }

    /** mmp_htab_lookup_nz */
    method LookupNz(key: string, keylen: int) returns (r: Ptr)
      requires Valid()
      ensures r == HtabSpec.Lookup(table, hash(key, keylen), key)
    {
      var np, i := Find(key, keylen);
      r := NULL;
      if np != null {
        assert ElemOk(hash(key, keylen), i);
        r := np.val;
      }
    }

    /** The new-key branch of mmp_htab_install: in front of its chain. */
    method InstallNew(hashval: nat, key: string, val: Ptr)
      requires Linked() && hashval < |chains| && (|chains[hashval]| > 0 ==> Alone(hashval, 0))
      modifies this, ptrs, elems
      ensures Linked() && ptrs == old(ptrs) && fresh(elems - old(elems))
      ensures table == old(table)[hashval := [Pair(key, val)] + old(table)[hashval]]
    {
      var np := new Elem(key, val, ptrs[hashval]);
      forall b, j | 0 <= b < |chains| && 0 <= j < |chains[b]|
        ensures ElemOk(b, j)
      {
        assert old(ElemOk(b, j));
      }
      PutInFront(hashval, np);
    }

    /** The bucket's first element gets a predecessor, and the bucket is left with that. */
    method PutInFront(hashval: nat, np: Elem)
      requires Linked() && hashval < |chains| && (|chains[hashval]| > 0 ==> Alone(hashval, 0))
      requires np !in elems && np.next == ptrs[hashval] && np.prev == null
      modifies this`table, this`chains, this`elems, ptrs, elems`prev
      ensures Linked() && elems == old(elems) + {np}
      ensures table == old(table)[hashval := [Pair(np.key, np.val)] + old(table)[hashval]]
    {
      ghost var was, c := chains, chains[hashval];
      assert c != [] ==> ElemOk(hashval, 0);
      if ptrs[hashval] != null { ptrs[hashval].prev := np; }
      ptrs[hashval] := np;
      chains := chains[hashval := [np] + c];
      elems := elems + {np};
      table := table[hashval := [Pair(np.key, np.val)] + table[hashval]];
      forall b, j | 0 <= b < |chains| && 0 <= j < |chains[b]|
        ensures |chains[b]| == |table[b]| && ElemOk(b, j)
      {
        if b != hashval || j > 0 {
          var j' := if b == hashval then j - 1 else j;
          var e := was[b][j'];
          assert old(ElemOk(b, j'));
          if c != [] && e == c[0] { assert b == hashval && j == 1; }
        }
      }
    }

    /** The other branch: a new value for the element found. */
    method SetVal(np: Elem, val: Ptr, ghost b: nat, ghost i: nat)
      requires Linked() && b < |chains| && i < |chains[b]| && Alone(b, i) && np == chains[b][i]
      modifies this`table, np`val
      ensures Linked()
      ensures table == old(table)[b := old(table)[b][i := Pair(np.key, val)]]
    {
      assert ElemOk(b, i);
      np.val := val;
      table := table[b := table[b][i := Pair(np.key, val)]];
      forall b', j | 0 <= b' < |chains| && 0 <= j < |chains[b']|
        ensures |chains[b']| == |table[b']| && ElemOk(b', j)
      {
        assert old(ElemOk(b', j));
      }
    }

    /** mmp_htab_install */
    method Install(key: string, val: Ptr) returns (ret: Ret)
      requires Valid()
      modifies this, ptrs, elems
      ensures Valid() && ptrs == old(ptrs) && fresh(elems - old(elems)) && ret == Ok
      ensures table == Installed(old(table), Bucket(key), key, val)
    {
      InstallPlaced(table, Bucket, key, val);
      AllAlone(Bucket(key));
      var np, i := Find(key, WHOLE_KEY);
      if np == null {
        var hashval := hash(key, WHOLE_KEY);
        InstallNew(hashval, key, val);
      } else {
        assert ElemOk(Bucket(key), i);
        SetVal(np, val, Bucket(key), i);
      }
      ret := Ok;
    }

    /** mmp_htab_delete once the element is found: when it is first in its chain, the bucket is left
        with `np->prev`, which is NULL. */
    method Unlink(np: Elem, hashval: nat, ghost i: nat)
      requires Linked() && hashval < |chains| && i < |chains[hashval]| && np == chains[hashval][i]
      requires Alone(hashval, i) && (i > 0 ==> Alone(hashval, i - 1))
        && (i + 1 < |chains[hashval]| ==> Alone(hashval, i + 1))
      modifies this, ptrs, elems
      ensures Linked() && ptrs == old(ptrs) && elems == old(elems)
      ensures table == old(table)[hashval := Without(old(table)[hashval], i)]
    {
      ghost var was, c := chains, chains[hashval];
      ghost var l, r := At(c, i - 1), At(c, i + 1);
      assert ElemOk(hashval, i) && (i > 0 ==> ElemOk(hashval, i - 1)) && (i + 1 < |c| ==> ElemOk(hashval, i + 1));
      assert i > 0 ==> c[0] != np;
      if np.next != null { np.next.prev := np.prev; }
      if np.prev != null { np.prev.next := np.next; }
      if ptrs[hashval] == np { ptrs[hashval] := np.prev; }
      assert l != null ==> l.next == r;
      assert r != null ==> r.prev == l;
      chains := chains[hashval := Without(c, i)];
      table := table[hashval := Without(table[hashval], i)];
      forall b, j | 0 <= b < |chains| && 0 <= j < |chains[b]|
        ensures |chains[b]| == |table[b]| && ElemOk(b, j)
      {
        var j' := if b != hashval || j < i then j else j + 1;
        var e := was[b][j'];
        assert old(ElemOk(b, j'));
        if e == l {
          assert b == hashval && j == i - 1;
        } else if e == r {
          assert b == hashval && j == i;
        }
      }
    }

    /** mmp_htab_delete */
    method Delete(key: string) returns (ret: Ret)
      requires Valid()
      modifies this, ptrs, elems
      ensures Valid() && ptrs == old(ptrs) && elems == old(elems) && ret == Ok
      ensures table == Deleted(old(table), Bucket(key), key)
    {
      DeletePlaced(table, Bucket, key);
      AllAlone(Bucket(key));
      var np, i := Find(key, WHOLE_KEY);
      if np != null {
        assert ElemOk(Bucket(key), i);
        var hashval := hash(key, WHOLE_KEY);
        Unlink(np, hashval, i);
      }
      ret := Ok;
    }
  }
}
