/**
 src/mmp_htab.c on the level of values: what its operations do to the chains of pairs behind the
 buckets, and when that is what they should do to the map the chains denote.
 */
module HtabSpec {
  import opened Status

  datatype Pair = Pair(key: string, val: Ptr)

  type Chain = seq<Pair>
  type Table = seq<Chain>
  type Hash = string -> nat

  // ---- what a table denotes

  ghost predicate Holds(t: Table, b: nat, i: nat, k: string, v: Ptr) {
    b < |t| && i < |t[b]| && t[b][i] == Pair(k, v)
  }

  /** The map, read off the chains without regard to hashing. */
  ghost predicate Denotes(t: Table, m: map<string, Ptr>) {
    && (forall b: nat, i: nat, k, v :: Holds(t, b, i, k, v) ==> k in m && m[k] == v)
    && (forall k :: k in m ==> exists b: nat, i: nat :: Holds(t, b, i, k, m[k]))
  }

  /** Every key is stored in its own bucket, and once. */
  ghost predicate Placed(t: Table, hash: Hash) {
    && |t| > 0 && (forall k :: hash(k) < |t|)
    && (forall b, i :: 0 <= b < |t| && 0 <= i < |t[b]| ==> hash(t[b][i].key) == b)
    && (forall b, i, j :: 0 <= b < |t| && 0 <= i < j < |t[b]| ==> t[b][i].key != t[b][j].key)
  }

  /** Only one map is denoted. */
  lemma DenotesOne(t: Table, m: map<string, Ptr>, n: map<string, Ptr>)
    requires Denotes(t, m) && Denotes(t, n)
    ensures m == n
  {
    forall k | k in m
      ensures k in n && n[k] == m[k]
    {
      var b: nat, i: nat :| Holds(t, b, i, k, m[k]);
    }
    forall k | k in n
      ensures k in m
    {
      var b: nat, i: nat :| Holds(t, b, i, k, n[k]);
    }
  }

  /** The map a table denotes. */
  ghost function Contents(t: Table, hash: Hash): (m: map<string, Ptr>)
    requires Placed(t, hash)
    ensures Denotes(t, m)
  {
    var m := map b, i | 0 <= b < |t| && 0 <= i < |t[b]| :: t[b][i].key := t[b][i].val;
    assert forall b: nat, i: nat, k, v :: Holds(t, b, i, k, v) ==> t[b][i].key in m;
    assert forall b, i :: 0 <= b < |t| && 0 <= i < |t[b]| ==> Holds(t, b, i, t[b][i].key, t[b][i].val);
    m
  }

  // ---- the operations

  function NoChains(size: nat): (t: Table) {
    seq(size, _ => [])
  }

  /** The place of a key in a chain, or the chain's length. */
  function Place(c: Chain, key: string): (i: nat)
    ensures i <= |c|
    ensures i < |c| ==> c[i].key == key
    ensures forall j :: 0 <= j < i ==> c[j].key != key
  {
    if c == [] || c[0].key == key then 0 else 1 + Place(c[1..], key)
  }

  /** mmp_htab_lookup, with NULL for "not there". */
  function Lookup(t: Table, b: nat, key: string): Ptr
    requires b < |t|
  {
    var i := Place(t[b], key);
    if i < |t[b]| then t[b][i].val else NULL
  }

  function Installed(t: Table, b: nat, key: string, val: Ptr): Table
    requires b < |t|
  {
    var c := t[b];
    var i := Place(c, key);
    t[b := if i < |c| then c[i := Pair(key, val)] else [Pair(key, val)] + c]
  }

  /** A chain without one element, except that the first one takes all the others with it. */
  function Without<T>(c: seq<T>, i: nat): seq<T>
    requires i < |c|
  {
    if i == 0 then [] else c[..i] + c[i + 1..]
  }

  /** mmp_htab_delete: for the first element of a chain the bucket is set to `np->prev`, which is NULL. */
  function Deleted(t: Table, b: nat, key: string): Table
    requires b < |t|
  {
    var c := t[b];
    var i := Place(c, key);
    t[b := if i == |c| then c else Without(c, i)]
  }

  // ---- against the map

  lemma PlaceIs(c: Chain, key: string, i: nat)
    requires i <= |c| && (i < |c| ==> c[i].key == key) && forall j :: 0 <= j < i ==> c[j].key != key
    ensures Place(c, key) == i
  {
    var p := Place(c, key);
    assert p < |c| ==> c[p].key == key;
  }

  /** A key of the map is where lookup looks for it. */
  lemma Located(t: Table, hash: Hash, m: map<string, Ptr>, key: string)
    requires Placed(t, hash) && Denotes(t, m)
    ensures var c := t[hash(key)]; var i := Place(c, key);
      if key in m then i < |c| && c[i] == Pair(key, m[key]) else i == |c|
  {
    var b := hash(key);
    var c := t[b];
    var i := Place(c, key);
    if i < |c| {
      assert Holds(t, b, i, key, c[i].val);
    }
    if key in m {
      var b': nat, i': nat :| Holds(t, b', i', key, m[key]);
      assert b' == b;
    }
  }

  /** Lookup answers like the map. */
  lemma LookupAgrees(t: Table, hash: Hash, m: map<string, Ptr>, key: string)
    requires Placed(t, hash) && Denotes(t, m)
    ensures Lookup(t, hash(key), key) == if key in m then m[key] else NULL
  {
    Located(t, hash, m, key);
  }

  /** A chain holds exactly the bindings of the map whose keys hash to its bucket. */
  ghost predicate ChainDenotes(c: Chain, b: nat, hash: Hash, m: map<string, Ptr>) {
    && (forall i :: 0 <= i < |c| ==> Bound(c[i], b, hash, m))
    && (forall i, j :: 0 <= i < j < |c| ==> c[i].key != c[j].key)
    && (forall k :: k in m && hash(k) == b ==> Place(c, k) < |c|)
  }

  ghost predicate Bound(e: Pair, b: nat, hash: Hash, m: map<string, Ptr>) {
    hash(e.key) == b && e.key in m && m[e.key] == e.val
  }

  lemma ChainOf(t: Table, hash: Hash, m: map<string, Ptr>, b: nat)
    requires Placed(t, hash) && Denotes(t, m) && b < |t|
    ensures ChainDenotes(t[b], b, hash, m)
  {
    forall i | 0 <= i < |t[b]|
      ensures Bound(t[b][i], b, hash, m)
    {
      assert Holds(t, b, i, t[b][i].key, t[b][i].val);
    }
    forall k | k in m && hash(k) == b
      ensures Place(t[b], k) < |t[b]|
    {
      Located(t, hash, m, k);
    }
  }

  lemma FromChains(t: Table, hash: Hash, m: map<string, Ptr>)
    requires |t| > 0 && (forall k :: hash(k) < |t|)
    requires forall b :: 0 <= b < |t| ==> ChainDenotes(t[b], b, hash, m)
    ensures Placed(t, hash) && Denotes(t, m)
  {
    forall b, i | 0 <= b < |t| && 0 <= i < |t[b]|
      ensures Bound(t[b][i], b, hash, m)
    {
      assert ChainDenotes(t[b], b, hash, m);
    }
    forall b: nat, i: nat, k, v | Holds(t, b, i, k, v)
      ensures k in m && m[k] == v
    {
      assert Bound(t[b][i], b, hash, m);
    }
    forall k | k in m
      ensures exists b: nat, i: nat :: Holds(t, b, i, k, m[k])
    {
      var b := hash(k);
      assert ChainDenotes(t[b], b, hash, m);
      var i := Place(t[b], k);
      assert Bound(t[b][i], b, hash, m);
      assert Holds(t, b, i, k, m[k]);
    }
  }

  /** A change of one chain and of the bindings in its bucket. */
  lemma OneChain(t: Table, hash: Hash, m: map<string, Ptr>, b: nat, c': Chain, m': map<string, Ptr>)
    requires Placed(t, hash) && Denotes(t, m) && b < |t| && ChainDenotes(c', b, hash, m')
    requires forall k :: hash(k) != b ==> (k in m <==> k in m') && (k in m ==> m[k] == m'[k])
    ensures Placed(t[b := c'], hash) && Denotes(t[b := c'], m')
  {
    var t' := t[b := c'];
    forall b' | 0 <= b' < |t|
      ensures ChainDenotes(t'[b'], b', hash, m')
    {
      if b' != b {
        ChainOf(t, hash, m, b');
        forall i | 0 <= i < |t[b']|
          ensures Bound(t[b'][i], b', hash, m')
        {
          assert Bound(t[b'][i], b', hash, m);
        }
      }
    }
    FromChains(t', hash, m');
  }

  /** Install keeps the table in order and binds the key. */
  lemma InstallAgrees(t: Table, hash: Hash, m: map<string, Ptr>, key: string, val: Ptr, t': Table)
    requires Placed(t, hash) && Denotes(t, m) && t' == Installed(t, hash(key), key, val)
    ensures Placed(t', hash) && Denotes(t', m[key := val])
  {
    var b := hash(key);
    ChainOf(t, hash, m, b);
    InstallChain(t[b], b, hash, m, key, val, t'[b]);
    OneChain(t, hash, m, b, t'[b], m[key := val]);
  }

  lemma InstallPlaced(t: Table, hash: Hash, key: string, val: Ptr)
    requires Placed(t, hash)
    ensures Placed(Installed(t, hash(key), key, val), hash)
  {
    InstallAgrees(t, hash, Contents(t, hash), key, val, Installed(t, hash(key), key, val));
  }

  lemma InstallChain(c: Chain, b: nat, hash: Hash, m: map<string, Ptr>, key: string, val: Ptr, c': Chain)
    requires ChainDenotes(c, b, hash, m) && hash(key) == b
    requires c' == var p := Place(c, key); if p < |c| then c[p := Pair(key, val)] else [Pair(key, val)] + c
    ensures ChainDenotes(c', b, hash, m[key := val])
  {
    var p := Place(c, key);
    if p < |c| {
      UpdateChain(c, b, hash, m, p, val, m[key := val]);
    } else {
      PrependChain(c, b, hash, m, Pair(key, val), m[key := val]);
    }
  }

  lemma UpdateChain(c: Chain, b: nat, hash: Hash, m: map<string, Ptr>, p: nat, val: Ptr, m': map<string, Ptr>)
    requires ChainDenotes(c, b, hash, m) && p < |c| && m' == m[c[p].key := val]
    ensures ChainDenotes(c[p := Pair(c[p].key, val)], b, hash, m')
  {
    var c' := c[p := Pair(c[p].key, val)];
    forall i | 0 <= i < |c'|
      ensures Bound(c'[i], b, hash, m') && c'[i].key == c[i].key
    {
      assert Bound(c[i], b, hash, m);
    }
    forall k | k in m' && hash(k) == b
      ensures Place(c', k) < |c'|
    {
      var i := Place(c, k);
      assert c'[i].key == k;
    }
  }

  lemma PrependChain(c: Chain, b: nat, hash: Hash, m: map<string, Ptr>, e: Pair, m': map<string, Ptr>)
    requires ChainDenotes(c, b, hash, m) && hash(e.key) == b && Place(c, e.key) == |c| && m' == m[e.key := e.val]
    ensures ChainDenotes([e] + c, b, hash, m')
  {
    var c' := [e] + c;
    forall i | 0 <= i < |c'|
      ensures Bound(c'[i], b, hash, m')
    {
      if i > 0 { assert c'[i] == c[i - 1] && Bound(c[i - 1], b, hash, m); }
    }
    forall k | k in m' && hash(k) == b
      ensures Place(c', k) < |c'|
    {
      PlaceInFront(c, e, k);
    }
  }

  lemma PlaceInFront(c: Chain, e: Pair, k: string)
    ensures Place([e] + c, k) == if k == e.key then 0 else Place(c, k) + 1
  {
    assert ([e] + c)[1..] == c;
  }

  /** What a caller can tell beforehand: the key is not there, or not first in its chain, or alone. */
  predicate SafeToDelete(t: Table, b: nat, key: string)
    requires b < |t|
  {
    var i := Place(t[b], key);
    i == |t[b]| || i > 0 || |t[b]| == 1
  }

  /** The keys that a deletion takes away. */
  ghost function Gone(t: Table, b: nat, key: string): set<string>
    requires b < |t|
  {
    var c := t[b];
    if SafeToDelete(t, b, key) then {key} else set i | 0 <= i < |c| :: c[i].key
  }

  /** Deletion keeps the table in order, and what it takes away is the key alone or the whole chain. */
  lemma DeleteDenotes(t: Table, hash: Hash, m: map<string, Ptr>, key: string, t': Table)
    requires Placed(t, hash) && Denotes(t, m) && t' == Deleted(t, hash(key), key)
    ensures Placed(t', hash) && Denotes(t', m - Gone(t, hash(key), key))
  {
    var b := hash(key);
    ChainOf(t, hash, m, b);
    var gone := Gone(t, b, key);
    forall k | k in gone
      ensures hash(k) == b
    {
    }
    DeleteChain(t[b], b, hash, m, key, t'[b], gone);
    OneChain(t, hash, m, b, t'[b], m - gone);
  }

  lemma DeletePlaced(t: Table, hash: Hash, key: string)
    requires Placed(t, hash)
    ensures Placed(Deleted(t, hash(key), key), hash)
  {
    DeleteDenotes(t, hash, Contents(t, hash), key, Deleted(t, hash(key), key));
  }

  lemma DeleteChain(c: Chain, b: nat, hash: Hash, m: map<string, Ptr>, key: string, c': Chain, gone: set<string>)
    requires ChainDenotes(c, b, hash, m) && hash(key) == b
    requires gone == Gone([c], 0, key) && c' == Deleted([c], 0, key)[0]
    ensures ChainDenotes(c', b, hash, m - gone)
  {
    var p := Place(c, key);
    forall i | 0 <= i < |c'|
      ensures Bound(c'[i], b, hash, m - gone)
    {
      var j := if p == |c| || i < p then i else i + 1;
      assert c'[i] == c[j] && Bound(c[j], b, hash, m);
    }
    forall k | k in m - gone && hash(k) == b
      ensures Place(c', k) < |c'|
    {
      var j := Place(c, k);
      assert c[j].key == k;
      var i := if j < p then j else j - 1;
      assert p < |c| ==> c'[i].key == k;
    }
  }

  /** Deletion removes exactly its key if and only if it is safe. */
  lemma DeleteAgreesIff(t: Table, hash: Hash, m: map<string, Ptr>, key: string, t': Table)
    requires Placed(t, hash) && Denotes(t, m) && t' == Deleted(t, hash(key), key)
    ensures Denotes(t', m - {key}) <==> SafeToDelete(t, hash(key), key)
  {
    DeleteDenotes(t, hash, m, key, t');
    var b := hash(key);
    if !SafeToDelete(t, b, key) {
      var lost := t[b][1];
      assert Holds(t, b, 1, lost.key, lost.val);
      assert lost.key in m - {key} && lost.key in Gone(t, b, key);
      if Denotes(t', m - {key}) { DenotesOne(t', m - {key}, m - Gone(t, b, key)); }
    }
  }

  // ---- the hash function of the library

  const UINT_MAX := 0xffff_ffff

  /** What a `char` counts as; negative from 128 on where `char` is signed. */
  type CharCode = char -> int

  /** The loop of mmp_htab_hash, over at most `max` characters. */
  function HashFrom(code: CharCode, str: string, max: int, h: nat): nat
    decreases |str|
  {
    if str == [] || max <= 0 then h
    else HashFrom(code, str[1..], max - 1, (code(str[0]) + 31 * h) % (UINT_MAX + 1))
  }

  function Power31(e: nat): nat {
    if e == 0 then 1 else 31 * Power31(e - 1)
  }

  /** The sum of the characters' codes, each times 31 to the number of characters behind it. */
  function Weighted(code: CharCode, str: string): int {
    if str == [] then 0 else code(str[0]) * Power31(|str| - 1) + Weighted(code, str[1..])
  }

  /** The first `max` characters. */
  function Head(str: string, max: int): string {
    if max <= 0 then [] else if |str| <= max then str else str[..max]
  }

  lemma Wraps(a: int, k: int)
    ensures (a + k * 0x1_0000_0000) % 0x1_0000_0000 == a % 0x1_0000_0000
  {
  }

  lemma Distributed(h: nat, c: int, q: int, m: int, p: nat, n: nat)
    requires c + 31 * h == q * n + m
    ensures h * (31 * p) + c * p == m * p + (q * p) * n
  {
    assert (c + 31 * h) * p == (q * n + m) * p;
    assert (q * n) * p == (q * p) * n;
  }

  lemma ModStep(h: nat, c: int, p: nat, w: int, m: int)
    requires m == (c + 31 * h) % 0x1_0000_0000
    ensures (m * p + w) % 0x1_0000_0000 == (h * (31 * p) + (c * p + w)) % 0x1_0000_0000
  {
    var q := (c + 31 * h) / 0x1_0000_0000;
    Distributed(h, c, q, m, p, 0x1_0000_0000);
    Wraps(m * p + w, q * p);
  }

  lemma {:induction false} HashFromWeighted(code: CharCode, str: string, max: int, h: nat)
    requires h <= UINT_MAX
    ensures var s := Head(str, max);
      HashFrom(code, str, max, h) == (h * Power31(|s|) + Weighted(code, s)) % (UINT_MAX + 1)
    decreases |str|
  {
    if str != [] && max > 0 {
      var s, h' := Head(str, max), (code(str[0]) + 31 * h) % (UINT_MAX + 1);
      HashFromWeighted(code, str[1..], max - 1, h');
      assert s[1..] == Head(str[1..], max - 1) && s[0] == str[0];
      ModStep(h, code(str[0]), Power31(|s| - 1), Weighted(code, s[1..]), h');
    }
  }

  /** The hash is the weighted sum of the first `max` characters, modulo 2 to the 32; the others do not
      matter. */
  lemma HashIsWeighted(code: CharCode, str: string, max: int)
    ensures HashFrom(code, str, max, 0) == Weighted(code, Head(str, max)) % 0x1_0000_0000
    ensures HashFrom(code, str, max, 0) == HashFrom(code, Head(str, max), max, 0)
  {
    HashFromWeighted(code, str, max, 0);
    HashFromWeighted(code, Head(str, max), max, 0);
    assert Head(Head(str, max), max) == Head(str, max);
  }

  /** UINT_MAX passed as an `int`. */
  const WHOLE_KEY := -1

  /** mmp_htab_hash */
  method HtabHash(code: CharCode, size: nat, str: string, max: int) returns (h: nat)
    requires size > 0
    ensures h == HashFrom(code, str, max, 0) % size
    ensures h == Weighted(code, Head(str, max)) % 0x1_0000_0000 % size
    ensures h < size && (max == WHOLE_KEY ==> h == 0)
  {
    var hashval: nat, i := 0, 0;
    while i < |str| && i < max
      invariant 0 <= i <= |str|
      invariant HashFrom(code, str, max, 0) == HashFrom(code, str[i..], max - i, hashval)
      invariant max <= 0 ==> i == 0 && hashval == 0
    {
      hashval := (code(str[i]) + 31 * hashval) % (UINT_MAX + 1);
      i := i + 1;
    }
    HashIsWeighted(code, str, max);
    h := hashval % size;
  }

  /** mmp_htab_lookup_nz, which hashes a part of the key only, finds what was installed under the hash of
      the whole key if and only if the two hashes are the same, or there is nothing to find. */
  lemma LookupNzIff(t: Table, hash: Hash, m: map<string, Ptr>, key: string, part: nat)
    requires Placed(t, hash) && Denotes(t, m) && part < |t|
    ensures Lookup(t, part, key) == Lookup(t, hash(key), key) <==> part == hash(key) || key !in m || m[key] == NULL
  {
    Located(t, hash, m, key);
    var i := Place(t[part], key);
    assert i < |t[part]| ==> hash(t[part][i].key) == part;
  }
}
