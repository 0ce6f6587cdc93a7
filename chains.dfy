/** Entries, bucket chains and the static chain `put` (insert at the tail or update in place). */
module Chains {
  import opened Sizing

  datatype Option<T> = None | Some(value: T)

  /** One map entry: the key, the key's hash code computed once at insertion, and the value,
      which a later `put` of an equal key overwrites in place. */
  datatype Entry<K, V> = Entry(key: K, hash: int32, value: V)

  /** A bucket's singly-linked chain, head first; the empty sequence is a null bucket head. */
  type Chain<K, V> = seq<Entry<K, V>>

  /** The contents of a bucket array, one chain per bucket. */
  type Table<K, V> = seq<Chain<K, V>>

  /** `hash & mask` for a mask one below a power of two: the low bits of the two's-complement
      hash, which is the Euclidean remainder modulo `mask + 1`. */
  function MaskedIndex(hash: int32, mask: int): (r: nat)
    requires IsPowerOfTwo(mask + 1)
    ensures r <= mask
  {
    (hash as int) % (mask + 1)
  }

  /** The chain walk's test: same stored hash, then key equality. */
  predicate Matches<K(==), V>(e: Entry<K, V>, hash: int32, key: K) {
    e.hash == hash && e.key == key
  }

  /** Position of the first entry of `c` that matches `(hash, key)`, if any. */
  function FirstMatch<K(==), V>(c: Chain<K, V>, hash: int32, key: K): (r: Option<nat>)
    ensures r.Some? ==> r.value < |c| && Matches(c[r.value], hash, key)
    ensures r.Some? ==> forall j :: 0 <= j < r.value ==> !Matches(c[j], hash, key)
    ensures r.None? ==> forall j :: 0 <= j < |c| ==> !Matches(c[j], hash, key)
  {
    if c == [] then None
    else if Matches(c[0], hash, key) then Some(0)
    else match FirstMatch(c[1..], hash, key)
      case None => None
      case Some(i) => Some(i + 1)
  }

  /** The static `put` on one bucket: the new chain and the previous value (None for null). */
  function ChainPut<K(==), V>(c: Chain<K, V>, key: K, value: V, hash: int32): (r: (Chain<K, V>, Option<V>))
    ensures |r.0| == |c| + (if r.1.None? then 1 else 0)
    ensures r.1.None? <==> forall j :: 0 <= j < |c| ==> !Matches(c[j], hash, key)
  {
    match FirstMatch(c, hash, key)
    case Some(i) => (c[i := c[i].(value := value)], Some(c[i].value))
    case None => (c + [Entry(key, hash, value)], None)
  }

  /** No two entries of the chain share both hash and key. */
  ghost predicate NoDuplicateKeys<K, V>(c: Chain<K, V>) {
    forall i, j :: 0 <= i < j < |c| ==> !(c[i].hash == c[j].hash && c[i].key == c[j].key)
  }

  /** A match exists: the first matching entry's value is replaced and returned, and the chain keeps
      its length and its order of keys; every other entry is left as it was. */
  lemma ChainPutFound<K, V>(c: Chain<K, V>, key: K, value: V, hash: int32)
    requires exists j :: 0 <= j < |c| && Matches(c[j], hash, key)
    ensures var (c', prev) := ChainPut(c, key, value, hash);
      prev.Some? && |c'| == |c| &&
      (forall j :: 0 <= j < |c| ==> c'[j].key == c[j].key && c'[j].hash == c[j].hash) &&
      exists i :: 0 <= i < |c| && Matches(c[i], hash, key) &&
        (forall j :: 0 <= j < i ==> !Matches(c[j], hash, key)) &&
        prev.value == c[i].value && c'[i].value == value &&
        (forall j :: 0 <= j < |c| && j != i ==> c'[j] == c[j])
  {
  }

  /** No match: a new entry is appended at the tail (it is the head of an empty bucket), and null
      is returned. */
  lemma ChainPutNotFound<K, V>(c: Chain<K, V>, key: K, value: V, hash: int32)
    requires forall j :: 0 <= j < |c| ==> !Matches(c[j], hash, key)
    ensures ChainPut(c, key, value, hash) == (c + [Entry(key, hash, value)], None)
    ensures c == [] ==> ChainPut(c, key, value, hash).0 == [Entry(key, hash, value)]
  {
  }

  /** How a put changes a collection of entries: an insert (`prev` is None) adds the entry put;
      an update swaps the entry holding the previous value for one holding the new value. Either
      way the entry put is afterwards in the collection. */
  ghost predicate PutMoves<K, V>(before: multiset<Entry<K, V>>, after: multiset<Entry<K, V>>,
                                 key: K, value: V, hash: int32, prev: Option<V>) {
    && (prev.None? ==> after == before + multiset{Entry(key, hash, value)})
    && (prev.Some? ==> after + multiset{Entry(key, hash, prev.value)} == before + multiset{Entry(key, hash, value)})
    && Entry(key, hash, value) in after
  }

  /** The entries a chain put moves in and out of the chain. */
  lemma ChainPutMultiset<K, V>(c: Chain<K, V>, key: K, value: V, hash: int32)
    ensures var r := ChainPut(c, key, value, hash);
      PutMoves(multiset(c), multiset(r.0), key, value, hash, r.1)
  {
    match FirstMatch(c, hash, key)
    case None =>
      assert ChainPut(c, key, value, hash).0 == c + [Entry(key, hash, value)];
    case Some(i) =>
      var x := c[i].(value := value);
      assert c[i] == Entry(key, hash, c[i].value);
      assert c == c[..i] + [c[i]] + c[i + 1..];
      assert c[i := x] == c[..i] + [x] + c[i + 1..];
      assert c[i := x][i] == x;
  }

  /** Entries a put does not touch can be added to both sides. */
  lemma PutMovesFrame<K, V>(before: multiset<Entry<K, V>>, after: multiset<Entry<K, V>>, other: multiset<Entry<K, V>>,
                            key: K, value: V, hash: int32, prev: Option<V>)
    requires PutMoves(before, after, key, value, hash, prev)
    ensures PutMoves(before + other, after + other, key, value, hash, prev)
    ensures PutMoves(other + before, other + after, key, value, hash, prev)
  {
    if prev.Some? {
      var removed := multiset{Entry(key, hash, prev.value)};
      calc {
        after + other + removed;
        (after + removed) + other;
      }
      calc {
        other + after + removed;
        other + (after + removed);
      }
    }
  }

  /** A chain without duplicate (hash, key) pairs keeps that property under a chain put. */
  lemma ChainPutKeepsNoDuplicates<K, V>(c: Chain<K, V>, key: K, value: V, hash: int32)
    requires NoDuplicateKeys(c)
    ensures NoDuplicateKeys(ChainPut(c, key, value, hash).0)
  {
    var c' := ChainPut(c, key, value, hash).0;
    match FirstMatch(c, hash, key)
    case Some(i) =>
      assert forall j :: 0 <= j < |c| ==> c'[j].key == c[j].key && c'[j].hash == c[j].hash;
    case None =>
      forall i, j | 0 <= i < j < |c'|
        ensures !(c'[i].hash == c'[j].hash && c'[i].key == c'[j].key)
      {
        if j == |c| {
          assert !Matches(c[i], hash, key);
        }
      }
  }

  /** Within one chain, a put followed by a walk for the same key finds the value just put. */
  lemma ChainPutThenFind<K, V>(c: Chain<K, V>, key: K, value: V, hash: int32)
    ensures var c' := ChainPut(c, key, value, hash).0;
      FirstMatch(c', hash, key).Some? && c'[FirstMatch(c', hash, key).value].value == value
  {
    var c' := ChainPut(c, key, value, hash).0;
    match FirstMatch(c, hash, key)
    case Some(i) =>
      assert Matches(c'[i], hash, key);
      assert forall j :: 0 <= j < i ==> c'[j] == c[j];
    case None =>
      assert Matches(c'[|c|], hash, key);
  }
}
