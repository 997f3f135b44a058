/** The partitioned map at the heart of the store: `P` maps from key to
    value, key `k` living in map number `FNV-1(k) mod P`. The functions here
    are the value-level meaning of `Set`, `Get` and `Delete`; the store
    classes perform the same updates in place on an array of maps.
    `Contents` is the store seen as one map, which is what clients observe,
    and the lemmas tie every operation to it. */
module Partitions {
  import opened ByteStrings
  import Fnv

  type Partition = map<Bytes, Bytes>

  /** Keys longer than this many bytes are refused by `Set`. */
  const MAX_KEY_SIZE := 128

  /** What `Set` returns for a refused key. */
  const KEY_TOO_LARGE: Bytes := "Key size is too large"

  /** HashKeyIntoPartitions: the key's FNV-1 hash, converted by `int(hash)`
      to a 64-bit Go `int`, where every 32-bit hash stays non-negative,
      modulo the number of partitions. Go's `%` truncates toward zero,
      which agrees with Dafny's on a non-negative hash. On a 32-bit target
      `int(hash)` is negative for hashes of 2^31 and above; that target is
      not modelled. */
  function PartitionOf(key: Bytes, p: nat): (i: nat)
    requires p >= 1
    ensures i < p
  {
    Fnv.Sum32(key) as int % p
  }

  /** The store's invariant: every stored key sits in the partition its hash
      selects. */
  ghost predicate WellPlaced(ps: seq<Partition>) {
    |ps| >= 1 && forall i, k | 0 <= i < |ps| && k in ps[i] :: PartitionOf(k, |ps|) == i
  }

  /** `p` empty partitions, as the constructor makes them. */
  function Empty(p: nat): (ps: seq<Partition>)
    ensures |ps| == p
    ensures forall i | 0 <= i < p :: ps[i] == map[]
  {
    seq(p, _ => map[])
  }

  /** Every key held by one of the first `n` partitions. */
  ghost function KeysBelow(ps: seq<Partition>, n: nat): set<Bytes>
    requires n <= |ps|
  {
    if n == 0 then {} else KeysBelow(ps, n - 1) + ps[n - 1].Keys
  }

  /** The store as clients observe it through `Get`: a key is present when
      the partition its hash selects holds it. */
  ghost function Contents(ps: seq<Partition>): map<Bytes, Bytes>
    requires |ps| >= 1
  {
    map k | k in KeysBelow(ps, |ps|) && k in ps[PartitionOf(k, |ps|)] :: ps[PartitionOf(k, |ps|)][k]
  }

  lemma {:induction false} InKeysBelow(ps: seq<Partition>, n: nat, i: nat, k: Bytes)
    requires i < n <= |ps| && k in ps[i]
    ensures k in KeysBelow(ps, n)
  {
    if i < n - 1 {
      InKeysBelow(ps, n - 1, i, k);
    }
  }

  /** `Contents` holds exactly what the key's own partition holds. */
  lemma InContents(ps: seq<Partition>, k: Bytes)
    requires |ps| >= 1
    ensures k in Contents(ps) <==> k in ps[PartitionOf(k, |ps|)]
    ensures k in Contents(ps) ==> Contents(ps)[k] == ps[PartitionOf(k, |ps|)][k]
  {
    if k in ps[PartitionOf(k, |ps|)] {
      InKeysBelow(ps, |ps|, PartitionOf(k, |ps|), k);
    }
  }

  /** Empty partitions satisfy the invariant and hold nothing. */
  lemma EmptyIsEmpty(p: nat)
    requires p >= 1
    ensures WellPlaced(Empty(p)) && Contents(Empty(p)) == map[]
  {
    forall k ensures k !in Contents(Empty(p)) {
      InContents(Empty(p), k);
    }
  }

  /** Set: an over-long key is refused with KEY_TOO_LARGE and nothing
      changes; any other key is mapped to `value` in its partition, and the
      key itself is returned. */
  function Put(ps: seq<Partition>, key: Bytes, value: Bytes): (r: (seq<Partition>, Bytes))
    requires |ps| >= 1
    ensures |r.0| == |ps|
    ensures forall j | 0 <= j < |ps| && j != PartitionOf(key, |ps|) :: r.0[j] == ps[j]
    ensures |key| <= MAX_KEY_SIZE ==> key in r.0[PartitionOf(key, |ps|)]
  {
    if |key| > MAX_KEY_SIZE then (ps, KEY_TOO_LARGE)
    else
      var i := PartitionOf(key, |ps|);
      (ps[i := ps[i][key := value]], key)
  }

  /** Get: the value and `true` when the key's partition holds the key, and
      Go's zero value (the empty string) and `false` otherwise. */
  function Lookup(ps: seq<Partition>, key: Bytes): (r: (Bytes, bool))
    requires |ps| >= 1
    ensures r.1 <==> exists j | 0 <= j < |ps| :: j == PartitionOf(key, |ps|) && key in ps[j]
    ensures !r.1 ==> r.0 == []
  {
    var i := PartitionOf(key, |ps|);
    if key in ps[i] then (ps[i][key], true) else ([], false)
  }

  /** Delete: removes the key from its partition, reporting whether it was
      there. */
  function Remove(ps: seq<Partition>, key: Bytes): (r: (seq<Partition>, bool))
    requires |ps| >= 1
    ensures |r.0| == |ps|
    ensures forall j | 0 <= j < |ps| && j != PartitionOf(key, |ps|) :: r.0[j] == ps[j]
    ensures key !in r.0[PartitionOf(key, |ps|)]
    ensures !r.1 ==> r.0 == ps
  {
    var i := PartitionOf(key, |ps|);
    if key in ps[i] then (ps[i := ps[i] - {key}], true) else (ps, false)
  }

  /** One key's view of `ContentsAfterUpdate`. */
  lemma ContentsAfterUpdateAt(ps: seq<Partition>, key: Bytes, m: Partition, k: Bytes)
    requires |ps| >= 1
    requires k != key ==> (k in m <==> k in ps[PartitionOf(key, |ps|)])
    requires k != key && k in m ==> m[k] == ps[PartitionOf(key, |ps|)][k]
    ensures var after := Contents(ps[PartitionOf(key, |ps|) := m]);
      && (k in after <==> if k == key then key in m else k in Contents(ps))
      && (k in after ==> after[k] == if k == key then m[key] else Contents(ps)[k])
  {
    var ps' := ps[PartitionOf(key, |ps|) := m];
    InContents(ps, k);
    InContents(ps', k);
    var i, j := PartitionOf(key, |ps|), PartitionOf(k, |ps|);
    assert ps'[j] == if j == i then m else ps[j];
  }

  /** Replacing the partition of `key` by one that differs from it only at
      `key` changes the store only at `key`. */
  lemma ContentsAfterUpdate(ps: seq<Partition>, key: Bytes, m: Partition)
    requires |ps| >= 1
    requires forall k | k != key :: (k in m <==> k in ps[PartitionOf(key, |ps|)])
    requires forall k | k != key && k in m :: m[k] == ps[PartitionOf(key, |ps|)][k]
    ensures Contents(ps[PartitionOf(key, |ps|) := m])
         == if key in m then Contents(ps)[key := m[key]] else Contents(ps) - {key}
  {
    var after := Contents(ps[PartitionOf(key, |ps|) := m]);
    var want := if key in m then Contents(ps)[key := m[key]] else Contents(ps) - {key};
    forall k ensures (k in after <==> k in want) && (k in after ==> after[k] == want[k]) {
      ContentsAfterUpdateAt(ps, key, m, k);
    }
    MapsAgree(after, want);
  }

  lemma MapsAgree<K, V>(a: map<K, V>, b: map<K, V>)
    requires forall k :: (k in a <==> k in b) && (k in a ==> a[k] == b[k])
    ensures a == b
  {
  }

  /** Set keeps the invariant; on the store it is an update at `key` for a
      key of at most MAX_KEY_SIZE bytes (which is returned) and no change
      at all for a longer one (which returns KEY_TOO_LARGE). Partitions other
      than the key's are never touched. */
  lemma PutSpec(ps: seq<Partition>, key: Bytes, value: Bytes)
    requires WellPlaced(ps)
    ensures var (ps', res) := Put(ps, key, value);
      && WellPlaced(ps')
      && |ps'| == |ps|
      && (forall j | 0 <= j < |ps| && j != PartitionOf(key, |ps|) :: ps'[j] == ps[j])
      && (|key| > MAX_KEY_SIZE ==> ps' == ps && res == KEY_TOO_LARGE)
      && (|key| <= MAX_KEY_SIZE ==> res == key && Contents(ps') == Contents(ps)[key := value])
  {
    if |key| <= MAX_KEY_SIZE {
      var i := PartitionOf(key, |ps|);
      ContentsAfterUpdate(ps, key, ps[i][key := value]);
    }
  }

  /** Get reports exactly what the store holds. */
  lemma LookupSpec(ps: seq<Partition>, key: Bytes)
    requires |ps| >= 1
    ensures Lookup(ps, key).1 <==> key in Contents(ps)
    ensures Lookup(ps, key).0 == if key in Contents(ps) then Contents(ps)[key] else []
  {
    InContents(ps, key);
  }

  /** Delete keeps the invariant, reports whether the key was present, and
      afterwards the key is absent and every other key is as it was; when
      the key was absent nothing changes. */
  lemma RemoveSpec(ps: seq<Partition>, key: Bytes)
    requires WellPlaced(ps)
    ensures var (ps', removed) := Remove(ps, key);
      && WellPlaced(ps')
      && |ps'| == |ps|
      && (removed <==> key in Contents(ps))
      && Contents(ps') == Contents(ps) - {key}
      && (!removed ==> ps' == ps)
  {
    var i := PartitionOf(key, |ps|);
    InContents(ps, key);
    ContentsAfterUpdate(ps, key, ps[i] - {key});
    if key !in ps[i] {
      assert ps[i] - {key} == ps[i];
      assert ps[i := ps[i]] == ps;
    }
  }

  /** Set then Get returns the value just stored. */
  lemma PutThenLookup(ps: seq<Partition>, key: Bytes, value: Bytes)
    requires WellPlaced(ps) && |key| <= MAX_KEY_SIZE
    ensures Lookup(Put(ps, key, value).0, key) == (value, true)
  {
    PutSpec(ps, key, value);
    LookupSpec(Put(ps, key, value).0, key);
  }

  /** Set of one key leaves what Get returns for every other key alone. */
  lemma PutThenLookupOther(ps: seq<Partition>, key: Bytes, value: Bytes, other: Bytes)
    requires |ps| >= 1 && other != key
    ensures Lookup(Put(ps, key, value).0, other) == Lookup(ps, other)
  {
    if |key| <= MAX_KEY_SIZE {
      var i, j := PartitionOf(key, |ps|), PartitionOf(other, |ps|);
      assert Put(ps, key, value).0[j] == if i == j then ps[i][key := value] else ps[j];
    }
  }

  /** After Delete, Get reports the key absent. */
  lemma RemoveThenLookup(ps: seq<Partition>, key: Bytes)
    requires WellPlaced(ps)
    ensures Lookup(Remove(ps, key).0, key) == ([], false)
  {
    RemoveSpec(ps, key);
    LookupSpec(Remove(ps, key).0, key);
  }

  /** The number of entries in the first `n` partitions. */
  ghost function SizeBelow(ps: seq<Partition>, n: nat): nat
    requires n <= |ps|
  {
    if n == 0 then 0 else SizeBelow(ps, n - 1) + |ps[n - 1]|
  }

  lemma {:induction false} KeysBelowSize(ps: seq<Partition>, n: nat)
    requires WellPlaced(ps) && n <= |ps|
    ensures |KeysBelow(ps, n)| == SizeBelow(ps, n)
  {
    if n > 0 {
      KeysBelowSize(ps, n - 1);
      var below, last := KeysBelow(ps, n - 1), ps[n - 1];
      forall k | k in below ensures k !in last {
        var j := KeysBelowWitness(ps, n - 1, k);
        assert PartitionOf(k, |ps|) == j < n - 1;
      }
      assert below !! last.Keys;
      assert |below + last.Keys| == |below| + |last.Keys|;
    }
  }

  lemma {:induction false} KeysBelowWitness(ps: seq<Partition>, n: nat, k: Bytes) returns (j: nat)
    requires n <= |ps| && k in KeysBelow(ps, n)
    ensures j < n && k in ps[j]
  {
    if k in ps[n - 1] {
      j := n - 1;
    } else {
      j := KeysBelowWitness(ps, n - 1, k);
    }
  }

  /** Because the partitions are disjoint, the sum of their sizes is the
      number of keys in the store. */
  lemma TotalSizeIsStoreSize(ps: seq<Partition>)
    requires WellPlaced(ps)
    ensures SizeBelow(ps, |ps|) == |Contents(ps)|
  {
    KeysBelowSize(ps, |ps|);
    forall k | k in KeysBelow(ps, |ps|) ensures k in Contents(ps) {
      var j := KeysBelowWitness(ps, |ps|, k);
      InContents(ps, k);
    }
    assert Contents(ps).Keys == KeysBelow(ps, |ps|);
  }
}
