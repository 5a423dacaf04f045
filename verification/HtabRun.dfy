/**
 Whole runs of a hash table against a finite map.
 */
module HtabRun {
  import opened Status
  import opened HtabSpec
  import Htab

  datatype Op = Install(key: string, val: Ptr) | Lookup(key: string) | Delete(key: string)

  function Apply(t: Table, hash: Hash, op: Op): Table
    requires hash(op.key) < |t|
  {
    match op
    case Install(key, val) => Installed(t, hash(key), key, val)
    case Lookup(key) => t
    case Delete(key) => Deleted(t, hash(key), key)
  }

  function Answer(t: Table, hash: Hash, op: Op): Ptr
    requires hash(op.key) < |t|
  {
    if op.Lookup? then HtabSpec.Lookup(t, hash(op.key), op.key) else NULL
  }

  /** `ts` are the tables between the operations, from the empty one on, and `out` the answers. */
  ghost predicate Follows(ops: seq<Op>, out: seq<Ptr>, ts: seq<Table>, hash: Hash) {
    && |out| == |ops| && |ts| == |ops| + 1 && Placed(ts[0], hash) && ts[0] == NoChains(|ts[0]|)
    && forall k :: 0 <= k < |ops| ==> StepOk(ts[k], hash, ops[k], out[k], ts[k + 1])
  }

  ghost predicate StepOk(t: Table, hash: Hash, op: Op, answer: Ptr, t': Table) {
    Placed(t, hash) && Placed(t', hash) && t' == Apply(t, hash, op) && answer == Answer(t, hash, op)
  }

  // ---- the same on a map

  function MapApply(m: map<string, Ptr>, op: Op): map<string, Ptr> {
    match op
    case Install(key, val) => m[key := val]
    case Lookup(_) => m
    case Delete(key) => m - {key}
  }

  function MapAnswer(m: map<string, Ptr>, op: Op): Ptr {
    if op.Lookup? && op.key in m then m[op.key] else NULL
  }

  function MapAfter(ops: seq<Op>, n: nat): map<string, Ptr>
    requires n <= |ops|
  {
    if n == 0 then map[] else MapApply(MapAfter(ops, n - 1), ops[n - 1])
  }

  ghost predicate Safe(t: Table, hash: Hash, op: Op)
    requires Placed(t, hash)
  {
    op.Delete? ==> SafeToDelete(t, hash(op.key), op.key)
  }

  /** One operation keeps the table at its map if and only if it is no unsafe deletion. */
  lemma StepAgreesIff(t: Table, hash: Hash, m: map<string, Ptr>, op: Op, answer: Ptr, t': Table)
    requires Denotes(t, m) && StepOk(t, hash, op, answer, t')
    ensures answer == MapAnswer(m, op)
    ensures Denotes(t', MapApply(m, op)) <==> Safe(t, hash, op)
  {
    match op {
      case Install(key, val) => InstallAgrees(t, hash, m, key, val, t');
      case Lookup(key) => LookupAgrees(t, hash, m, key);
      case Delete(key) => DeleteAgreesIff(t, hash, m, key, t');
    }
  }

  /** As long as deletions are safe, the table is at the map and answers like it. */
  lemma {:induction false} RunAgrees(ops: seq<Op>, out: seq<Ptr>, ts: seq<Table>, hash: Hash, n: nat)
    requires Follows(ops, out, ts, hash) && n <= |ops|
    requires forall k :: 0 <= k < n ==> Placed(ts[k], hash) && Safe(ts[k], hash, ops[k])
    ensures Denotes(ts[n], MapAfter(ops, n))
    ensures n < |ops| ==> out[n] == MapAnswer(MapAfter(ops, n), ops[n])
  {
    if n > 0 {
      RunAgrees(ops, out, ts, hash, n - 1);
      assert StepOk(ts[n - 1], hash, ops[n - 1], out[n - 1], ts[n]);
      StepAgreesIff(ts[n - 1], hash, MapAfter(ops, n - 1), ops[n - 1], out[n - 1], ts[n]);
    }
    if n < |ops| {
      assert StepOk(ts[n], hash, ops[n], out[n], ts[n + 1]);
      StepAgreesIff(ts[n], hash, MapAfter(ops, n), ops[n], out[n], ts[n + 1]);
    }
  }

  /** A whole run stays at the map, all the way, if and only if all its deletions are safe. */
  lemma RunAgreesIff(ops: seq<Op>, out: seq<Ptr>, ts: seq<Table>, hash: Hash)
    requires Follows(ops, out, ts, hash)
    ensures (forall n :: 0 <= n <= |ops| ==> Denotes(ts[n], MapAfter(ops, n))) <==>
      (forall k :: 0 <= k < |ops| ==> Placed(ts[k], hash) && Safe(ts[k], hash, ops[k]))
  {
    if forall n :: 0 <= n <= |ops| ==> Denotes(ts[n], MapAfter(ops, n)) {
      forall k | 0 <= k < |ops|
        ensures Placed(ts[k], hash) && Safe(ts[k], hash, ops[k])
      {
        assert StepOk(ts[k], hash, ops[k], out[k], ts[k + 1]);
        assert Denotes(ts[k], MapAfter(ops, k)) && Denotes(ts[k + 1], MapAfter(ops, k + 1));
        StepAgreesIff(ts[k], hash, MapAfter(ops, k), ops[k], out[k], ts[k + 1]);
      }
    }
    if forall k :: 0 <= k < |ops| ==> Placed(ts[k], hash) && Safe(ts[k], hash, ops[k]) {
      forall n | 0 <= n <= |ops|
        ensures Denotes(ts[n], MapAfter(ops, n))
      {
        RunAgrees(ops, out, ts, hash, n);
      }
    }
  }

  /** Deleting the key that was installed last takes every key of its bucket with it. */
  lemma NewestTakesAll(t: Table, hash: Hash, m: map<string, Ptr>, key: string, val: Ptr, t1: Table, t2: Table)
    requires Placed(t, hash) && Denotes(t, m) && key !in m
    requires t1 == Installed(t, hash(key), key, val) && t2 == Deleted(t1, hash(key), key)
    ensures Denotes(t2, map k | k in m && hash(k) != hash(key) :: m[k])
  {
    var b := hash(key);
    Located(t, hash, m, key);
    InstallAgrees(t, hash, m, key, val, t1);
    var m1 := m[key := val];
    DeleteDenotes(t1, hash, m1, key, t2);
    PlaceIs(t1[b], key, 0);
    var gone := Gone(t1, b, key);
    forall k | k in m1
      ensures k in gone <==> hash(k) == b
    {
      Located(t1, hash, m1, k);
    }
    OthersStay(m, hash, key, val, gone);
  }

  lemma OthersStay(m: map<string, Ptr>, hash: Hash, key: string, val: Ptr, gone: set<string>)
    requires forall k :: k in m || k == key ==> (k in gone <==> hash(k) == hash(key))
    ensures m[key := val] - gone == map k | k in m && hash(k) != hash(key) :: m[k]
  {
  }

  /** With the library's own hash of whole keys, every key is in one bucket, and that is the whole table. */
  lemma NewestTakesWholeTable(t: Table, size: nat, code: CharCode, hash: Hash, m: map<string, Ptr>, key: string,
                              val: Ptr, t1: Table, t2: Table)
    requires size > 0 && forall k :: hash(k) == HashFrom(code, k, WHOLE_KEY, 0) % size
    requires Placed(t, hash) && Denotes(t, m) && key !in m
    requires t1 == Installed(t, hash(key), key, val) && t2 == Deleted(t1, hash(key), key)
    ensures Denotes(t2, map[])
  {
    NewestTakesAll(t, hash, m, key, val, t1, t2);
    forall k | k in m
      ensures hash(k) == hash(key)
    {
      assert HashFrom(code, k, WHOLE_KEY, 0) == 0 == HashFrom(code, key, WHOLE_KEY, 0);
    }
    assert (map k | k in m && hash(k) != hash(key) :: m[k]) == map[];
  }

  /** One operation of a run. */
  method Step(h: Htab.Htab, op: Op) returns (answer: Ptr)
    requires h.Valid()
    modifies h, h.ptrs, h.elems
    ensures h.Valid() && h.ptrs == old(h.ptrs) && fresh(h.elems - old(h.elems))
    ensures StepOk(old(h.table), h.Bucket, op, answer, h.table)
  {
    answer := NULL;
    match op {
      case Install(key, val) => var ret := h.Install(key, val);
      case Lookup(key) => answer := h.Lookup(key);
      case Delete(key) => var ret := h.Delete(key);
    }
  }

  predicate NoDelete(ops: seq<Op>) {
    forall i :: 0 <= i < |ops| ==> !ops[i].Delete?
  }

  /** Without deletions there is nothing to be unsafe. */
  lemma InstallsAgree(ops: seq<Op>, out: seq<Ptr>, ts: seq<Table>, hash: Hash)
    requires Follows(ops, out, ts, hash) && NoDelete(ops)
    ensures forall n :: 0 <= n < |ops| ==> out[n] == MapAnswer(MapAfter(ops, n), ops[n])
  {
    forall n | 0 <= n < |ops|
      ensures out[n] == MapAnswer(MapAfter(ops, n), ops[n])
    {
      forall k | 0 <= k < n
        ensures Placed(ts[k], hash) && Safe(ts[k], hash, ops[k])
      {
        assert StepOk(ts[k], hash, ops[k], out[k], ts[k + 1]);
      }
      RunAgrees(ops, out, ts, hash, n);
    }
  }

  /** Any run on a table made for it; if it has no deletions, it answers like the map. */
  method Run(ops: seq<Op>, size: nat, hash: (string, int) -> nat)
    returns (out: seq<Ptr>, ghost ts: seq<Table>, ghost bucket: Hash)
    requires size > 0 && forall k, n :: hash(k, n) < size
    ensures forall k :: bucket(k) == hash(k, WHOLE_KEY)
    ensures Follows(ops, out, ts, bucket) && |ts[0]| == size
    ensures |out| == |ops|
    ensures NoDelete(ops) ==> forall n :: 0 <= n < |ops| ==> out[n] == MapAnswer(MapAfter(ops, n), ops[n])
  {
    var h := new Htab.Htab(size, hash);
    out, ts, bucket := [], [h.table], h.Bucket;
    var i := 0;
    while i < |ops|
      invariant 0 <= i <= |ops| && h.Valid() && fresh(h) && fresh(h.ptrs) && fresh(h.elems)
      invariant |out| == i && |ts| == i + 1 && ts[0] == NoChains(size) && ts[i] == h.table
      invariant forall k :: 0 <= k < i ==> StepOk(ts[k], bucket, ops[k], out[k], ts[k + 1])
    {
      var answer := Step(h, ops[i]);
      out, ts := out + [answer], ts + [h.table];
      i := i + 1;
    }
    if NoDelete(ops) { InstallsAgree(ops, out, ts, bucket); }
  }
}
