/** The resize state machine of `PauselessHashMap` on values: the fields `table`, `oldTable`,
    `migrated`, `size`, `nextResize` and the pending allocation `nextTable`, and what the public
    `put` and `get` do with them. */
module MapStates {
  import opened Sizing
  import opened Chains
  import opened Migration

  /** Old buckets migrated at the start of every `put` while a migration is in flight. */
  const BATCH: nat := 8

  /** Table length from which the next array is allocated by the background worker. */
  const ASYNC_THRESHOLD: nat := 1024

  /** `nextTable` is the length of the array a submitted allocation produces, or None when
      no allocation is pending. */
  datatype MapState<K, V> = MapState(
    table: Table<K, V>,
    oldTable: Option<Table<K, V>>,
    migrated: int,
    size: int,
    nextResize: int,
    nextTable: Option<nat>)

  /** What `get` does with the chain it selects. Its loop never advances along the chain, so a
      non-empty bucket whose head does not match is never left: that outcome is `Spins`. */
  datatype GetOutcome<V> = Found(value: V) | NotFound | Spins

  /** The invariant between calls. */
  ghost predicate Valid<K, V>(s: MapState<K, V>) {
    && IsPowerOfTwo(|s.table|) && |s.table| >= MIN_CAPACITY
    && s.nextResize * 2 == |s.table|
    && s.size >= 0
    && (s.oldTable.Some? ==>
          && |s.table| == 2 * |s.oldTable.value|
          && |s.oldTable.value| >= MIN_CAPACITY
          && 0 <= s.migrated < |s.oldTable.value|
          && s.migrated % BATCH == 0)
    && (s.nextTable.Some? ==>
          && s.oldTable.None?
          && |s.table| >= ASYNC_THRESHOLD
          && s.nextTable.value == 2 * |s.table|)
  }

  function EmptyTable<K, V>(n: nat): (t: Table<K, V>)
    ensures |t| == n && forall j :: 0 <= j < n ==> t[j] == []
  {
    seq(n, _ => [])
  }

  /** The state the constructor builds from the size hint. */
  function InitialState<K, V>(hint: int32): (s: MapState<K, V>)
    ensures Valid(s)
    ensures MIN_CAPACITY <= |s.table| <= Max(MIN_CAPACITY, hint as int) < 2 * |s.table|
    ensures 2 * s.nextResize == |s.table| && s.oldTable.None? && s.nextTable.None? && s.size == 0
    ensures forall j :: 0 <= j < |s.table| ==> s.table[j] == []
  {
    var n := InitialCapacity(hint);
    MapState(EmptyTable(n), None, 0, 0, n / 2, None)
  }

  /** Every entry held by either table. */
  ghost function Contents<K, V>(s: MapState<K, V>): multiset<Entry<K, V>> {
    TableMultiset(s.table) + if s.oldTable.Some? then TableMultiset(s.oldTable.value) else multiset{}
  }

  /** The entries that the next batch throws away: when it completes the migration, the old table
      is dropped with whatever `put` has stored since in its already drained buckets. */
  ghost function DroppedEntries<K, V>(s: MapState<K, V>): multiset<Entry<K, V>> {
    if s.oldTable.Some? && 0 <= s.migrated && s.migrated + BATCH == |s.oldTable.value|
    then TableMultiset(s.oldTable.value[..s.migrated])
    else multiset{}
  }

  lemma BatchFits<K, V>(s: MapState<K, V>)
    requires Valid(s) && s.oldTable.Some?
    ensures IsPowerOfTwo(|s.oldTable.value|)
    ensures s.migrated + BATCH <= |s.oldTable.value|
  {
    HalfIsPowerOfTwo(|s.table|);
    assert |s.table| / 2 == |s.oldTable.value|;
    PowerOfTwoMultipleOfEight(|s.oldTable.value|);
  }

  /** Lines 94-99: migrate old buckets `migrated .. migrated + 7` into the current table and drop
      the old table once the cursor reaches its length. */
  function Drain<K, V>(s: MapState<K, V>): (d: MapState<K, V>)
    requires Valid(s) && s.oldTable.Some?
    ensures Valid(d) && |d.table| == |s.table|
    ensures d.migrated == s.migrated + BATCH
    ensures d.oldTable.None? <==> s.migrated + BATCH == |s.oldTable.value|
  {
    BatchFits(s);
    var r := MigrateRange(s.oldTable.value, s.table, s.migrated, BATCH);
    var m := s.migrated + BATCH;
    s.(table := r.1, oldTable := if m == |r.0| then None else Some(r.0), migrated := m)
  }

  /** The state a `put` works on once the batch (if any) has run. */
  function Drained<K, V>(s: MapState<K, V>): (d: MapState<K, V>)
    requires Valid(s)
    ensures Valid(d) && |d.table| == |s.table|
  {
    if s.oldTable.Some? then Drain(s) else s
  }

  /** Lines 102-105: chain put into an old bucket, counting an insert in `size`. */
  function InsertIntoOld<K(==), V>(d: MapState<K, V>, idx: nat, key: K, value: V, hash: int32): (MapState<K, V>, Option<V>)
    requires d.oldTable.Some? && idx < |d.oldTable.value|
  {
    var (c, prev) := ChainPut(d.oldTable.value[idx], key, value, hash);
    (d.(oldTable := Some(d.oldTable.value[idx := c]), size := if prev.None? then d.size + 1 else d.size), prev)
  }

  /** Lines 108-109: chain put into a bucket of the current table, counting an insert in `size`. */
  function InsertIntoTable<K(==), V>(d: MapState<K, V>, idx: nat, key: K, value: V, hash: int32): (MapState<K, V>, Option<V>)
    requires idx < |d.table|
  {
    var (c, prev) := ChainPut(d.table[idx], key, value, hash);
    (d.(table := d.table[idx := c], size := if prev.None? then d.size + 1 else d.size), prev)
  }

  /** Lines 113-116 and 132-135: the current table becomes the old one, the cursor restarts and
      the threshold doubles; `newTable` is the fresh, empty array. */
  function StartCycle<K, V>(s: MapState<K, V>, newTable: Table<K, V>): MapState<K, V> {
    s.(nextResize := s.nextResize * 2, oldTable := Some(s.table), migrated := 0, table := newTable)
  }

  /** Lines 111-146: what crossing the threshold does, given whether the pending allocation (if
      any) has completed. */
  function ResizeStep<K, V>(s: MapState<K, V>, allocationDone: bool): MapState<K, V> {
    if |s.table| < ASYNC_THRESHOLD then StartCycle(s, EmptyTable(2 * |s.table|))
    else if s.nextTable.None? then s.(nextTable := Some(2 * |s.table|))
    else if allocationDone then StartCycle(s, EmptyTable(s.nextTable.value)).(nextTable := None)
    else s
  }

  /** `hash & (mask >> 1)` for the mask `len - 1` of a table of length `len`: the bucket `put`
      uses in either table, and the one `get` reads in the old table. */
  function InsertIndex(hash: int32, len: nat): (idx: nat)
    requires IsPowerOfTwo(len) && len >= 2
    ensures idx < len / 2
  {
    HalfIsPowerOfTwo(len);
    MaskedIndex(hash, (len - 1) / 2)
  }

  /** Lines 100-109 after the batch: the chain put into old bucket `idx` when the old table is
      still present and that bucket is already drained, else into bucket `idx` of the current
      table. */
  function PutDrained<K(==), V>(d: MapState<K, V>, idx: nat, key: K, value: V, hash: int32): (MapState<K, V>, Option<V>)
    requires idx < |d.table| && (d.oldTable.Some? ==> d.migrated <= |d.oldTable.value|)
  {
    if d.oldTable.Some? && idx < d.migrated then InsertIntoOld(d, idx, key, value, hash)
    else InsertIntoTable(d, idx, key, value, hash)
  }

  /** Lines 94-109 up to the threshold test: the batch (if any), then the chain put into bucket
      `hash & (mask >> 1)` of the old or the current table. */
  function PutInsert<K(==), V>(s: MapState<K, V>, key: K, value: V, hash: int32): (MapState<K, V>, Option<V>)
    requires Valid(s)
  {
    PutDrained(Drained(s), InsertIndex(hash, |s.table|), key, value, hash)
  }

  /** The public `put(key, value)` for a key whose hash code is `hash` (lines 88-149). The early
      return after a put into the old table (line 105) skips the threshold test, which would fail
      there anyway because the old table is still present. */
  function PutSpec<K(==), V>(s: MapState<K, V>, key: K, value: V, hash: int32, allocationDone: bool): (MapState<K, V>, Option<V>)
    requires Valid(s)
  {
    var r := PutInsert(s, key, value, hash);
    if r.1.None? && r.0.size > r.0.nextResize && r.0.oldTable.None? then (ResizeStep(r.0, allocationDone), r.1)
    else r
  }

  /** The chain `get` reads (lines 224-230): the old bucket `hash & (mask >> 1)` when the old
      table is present and that index is below the cursor, else the bucket `hash & mask` of the
      current table. */
  function LookupChain<K, V>(s: MapState<K, V>, hash: int32): Chain<K, V>
    requires Valid(s)
  {
    var idx := InsertIndex(hash, |s.table|);
    if s.oldTable.Some? && idx < s.migrated then s.oldTable.value[idx]
    else s.table[MaskedIndex(hash, |s.table| - 1)]
  }

  /** The public `get(key)` for a key whose hash code is `hash` (lines 222-235). */
  function LookupSpec<K(==), V>(s: MapState<K, V>, key: K, hash: int32): GetOutcome<V>
    requires Valid(s)
  {
    var chain := LookupChain(s, hash);
    if chain == [] then NotFound
    else if Matches(chain[0], hash, key) then Found(chain[0].value)
    else Spins
  }

  /** A batch migrates exactly the old buckets `[migrated, migrated + 8)`: they are empty
      afterwards and every other old bucket is untouched, the current table receives their chains
      as `migrate` prepends them, and nothing else changes. */
  lemma DrainEffect<K, V>(s: MapState<K, V>)
    requires Valid(s) && s.oldTable.Some?
    ensures var d := Drain(s); var o := s.oldTable.value; var m := s.migrated;
      && d.size == s.size && d.nextResize == s.nextResize && d.nextTable == s.nextTable
      && d.table == MoveChain(Concat(o[m..m + BATCH]), s.table)
      && (d.oldTable.Some? ==>
            forall k :: 0 <= k < |o| ==> d.oldTable.value[k] == if m <= k < m + BATCH then [] else o[k])
  {
    BatchFits(s);
    MigrateRangeOld(s.oldTable.value, s.table, s.migrated, BATCH);
    MigrateRangeNew(s.oldTable.value, s.table, s.migrated, BATCH);
  }

  /** A batch loses no entry, except that the batch that completes the migration drops the old
      table together with the entries stored since in its drained buckets. */
  lemma DrainAccounting<K, V>(s: MapState<K, V>)
    requires Valid(s) && s.oldTable.Some?
    ensures Contents(Drain(s)) + DroppedEntries(s) == Contents(s)
  {
    BatchFits(s);
    var o, m := s.oldTable.value, s.migrated;
    var r := MigrateRange(o, s.table, m, BATCH);
    assert Drain(s).table == r.1;
    calc {
      TableMultiset(r.1) + TableMultiset(r.0);
      TableMultiset(r.0) + TableMultiset(r.1);
      { MigrateRangeMultiset(o, s.table, m, BATCH); }
      TableMultiset(o) + TableMultiset(s.table);
      TableMultiset(s.table) + TableMultiset(o);
      Contents(s);
    }
    if m + BATCH == |o| {
      calc {
        TableMultiset(r.0);
        { MigrateRangeRemaining(o, s.table, m, BATCH); }
        TableMultiset(o[..m]) + TableMultiset(o[m + BATCH..]);
        { assert o[m + BATCH..] == []; }
        DroppedEntries(s);
      }
      assert Contents(Drain(s)) == TableMultiset(r.1);
    } else {
      assert Drain(s).oldTable == Some(r.0);
      assert DroppedEntries(s) == multiset{};
    }
  }

  /** The batch that completes the migration loses every entry that `put` stored in an already
      drained old bucket: afterwards the map holds fewer copies of it. */
  lemma DrainLosesDrainedBuckets<K, V>(s: MapState<K, V>, k: nat, e: Entry<K, V>)
    requires Valid(s) && s.oldTable.Some? && s.migrated + BATCH == |s.oldTable.value|
    requires k < s.migrated && e in s.oldTable.value[k]
    ensures Contents(Drain(s))[e] < Contents(s)[e]
  {
    var o := s.oldTable.value;
    assert e in TableMultiset(o[..s.migrated]) by {
      BucketInTable(o[..s.migrated], k);
      assert o[..s.migrated][k] == o[k];
    }
    DrainAccounting(s);
  }

  /** Starting a cycle or submitting or claiming an allocation keeps the invariant and moves no
      entry: the previous table, with its entries, becomes the old table. */
  lemma ResizeStepKeeps<K, V>(s: MapState<K, V>, allocationDone: bool)
    requires Valid(s) && s.oldTable.None?
    ensures Valid(ResizeStep(s, allocationDone))
    ensures Contents(ResizeStep(s, allocationDone)) == Contents(s)
  {
    DoubleIsPowerOfTwo(|s.table|);
    TableMultisetEmpty<K, V>(EmptyTable(2 * |s.table|));
  }

  /** A chain put into bucket `idx` of a table moves entries in and out of the whole table as it
      does for the bucket. */
  lemma BucketPutAccounting<K, V>(t: Table<K, V>, idx: nat, key: K, value: V, hash: int32)
    requires idx < |t|
    ensures var r := ChainPut(t[idx], key, value, hash);
      PutMoves(TableMultiset(t), TableMultiset(t[idx := r.0]), key, value, hash, r.1)
  {
    var r := ChainPut(t[idx], key, value, hash);
    var t' := t[idx := r.0];
    assert TableMultiset(t') + multiset(t[idx]) == TableMultiset(t) + multiset(r.0) by {
      TableMultisetUpdate(t, idx, r.0);
    }
    ChainPutMultiset(t[idx], key, value, hash);
    assert Entry(key, hash, value) in TableMultiset(t') by {
      BucketInTable(t', idx);
    }
    PutMovesCancel(multiset(t[idx]), multiset(r.0), TableMultiset(t'), TableMultiset(t), key, value, hash, r.1);
  }

  /** What a put does to a part carries over to the whole: if `rest + part == total + part'` and
      the put took `part` to `part'`, it took `total` to `rest`. */
  lemma PutMovesCancel<K, V>(part: multiset<Entry<K, V>>, part': multiset<Entry<K, V>>,
                             rest: multiset<Entry<K, V>>, total: multiset<Entry<K, V>>,
                             key: K, value: V, hash: int32, prev: Option<V>)
    requires PutMoves(part, part', key, value, hash, prev)
    requires rest + part == total + part'
    requires Entry(key, hash, value) in rest
    ensures PutMoves(total, rest, key, value, hash, prev)
  {
    var added := multiset{Entry(key, hash, value)};
    if prev.None? {
      calc {
        rest + part;
        total + (part + added);
        (total + added) + part;
      }
      MultisetCancel(rest, total + added, part);
    } else {
      var removed := multiset{Entry(key, hash, prev.value)};
      calc {
        (rest + removed) + part;
        (rest + part) + removed;
        total + (part' + removed);
        total + (part + added);
        (total + added) + part;
      }
      MultisetCancel(rest + removed, total + added, part);
    }
  }

  /** The insert step of `put` keeps the invariant. */
  lemma PutInsertKeepsValid<K, V>(s: MapState<K, V>, key: K, value: V, hash: int32)
    requires Valid(s)
    ensures Valid(PutInsert(s, key, value, hash).0)
  {
  }

  /** Public `put` keeps the invariant between calls. */
  lemma PutKeepsValid<K, V>(s: MapState<K, V>, key: K, value: V, hash: int32, allocationDone: bool)
    requires Valid(s)
    ensures Valid(PutSpec(s, key, value, hash, allocationDone).0)
  {
    var e := PutInsert(s, key, value, hash);
    PutInsertKeepsValid(s, key, value, hash);
    if e.1.None? && e.0.size > e.0.nextResize && e.0.oldTable.None? {
      ResizeStepKeeps(e.0, allocationDone);
    }
  }

  /** Lines 102-105 on a drained state: the entries change as the chain put says and `size`
      counts an insert. */
  lemma InsertIntoOldAccounting<K, V>(d: MapState<K, V>, idx: nat, key: K, value: V, hash: int32)
    requires d.oldTable.Some? && idx < |d.oldTable.value|
    ensures var r := InsertIntoOld(d, idx, key, value, hash);
      && r.0.size == d.size + (if r.1.None? then 1 else 0)
      && PutMoves(Contents(d), Contents(r.0), key, value, hash, r.1)
  {
    var o := d.oldTable.value;
    var r := InsertIntoOld(d, idx, key, value, hash);
    var o' := r.0.oldTable.value;
    assert o' == o[idx := ChainPut(o[idx], key, value, hash).0];
    BucketPutAccounting(o, idx, key, value, hash);
    PutMovesFrame(TableMultiset(o), TableMultiset(o'), TableMultiset(d.table), key, value, hash, r.1);
  }

  /** Lines 108-109 on a drained state: the entries change as the chain put says and `size`
      counts an insert. */
  lemma InsertIntoTableAccounting<K, V>(d: MapState<K, V>, idx: nat, key: K, value: V, hash: int32)
    requires idx < |d.table|
    ensures var r := InsertIntoTable(d, idx, key, value, hash);
      && r.0.size == d.size + (if r.1.None? then 1 else 0)
      && PutMoves(Contents(d), Contents(r.0), key, value, hash, r.1)
  {
    var r := InsertIntoTable(d, idx, key, value, hash);
    var t' := r.0.table;
    assert t' == d.table[idx := ChainPut(d.table[idx], key, value, hash).0];
    BucketPutAccounting(d.table, idx, key, value, hash);
    var rest := if d.oldTable.Some? then TableMultiset(d.oldTable.value) else multiset{};
    PutMovesFrame(TableMultiset(d.table), TableMultiset(t'), rest, key, value, hash, r.1);
  }

  /** The insert step of `put`: `size` grows by one exactly when the chain put returned null, and
      the entries change as the chain put says, except that a batch completing the migration
      drops the entries counted by `DroppedEntries`. */
  lemma PutInsertAccounting<K, V>(s: MapState<K, V>, key: K, value: V, hash: int32)
    requires Valid(s)
    ensures var r := PutInsert(s, key, value, hash);
      && r.0.size == s.size + (if r.1.None? then 1 else 0)
      && PutMoves(Contents(s), Contents(r.0) + DroppedEntries(s), key, value, hash, r.1)
  {
    var idx := InsertIndex(hash, |s.table|);
    var d := Drained(s);
    var dropped := DroppedEntries(s);
    if s.oldTable.Some? {
      DrainAccounting(s);
    }
    assert Contents(d) + dropped == Contents(s);
    var r := PutInsert(s, key, value, hash);
    if d.oldTable.Some? && idx < d.migrated {
      InsertIntoOldAccounting(d, idx, key, value, hash);
    } else {
      InsertIntoTableAccounting(d, idx, key, value, hash);
    }
    PutMovesFrame(Contents(d), Contents(r.0), dropped, key, value, hash, r.1);
  }

  /** Size and entry accounting of public `put`: `size` grows by one exactly when the chain put
      returned null, and the entries change as the chain put says (the entry put is then stored),
      except that a batch completing the migration drops the entries counted by `DroppedEntries`;
      a resize moves no entry. */
  lemma PutAccounting<K, V>(s: MapState<K, V>, key: K, value: V, hash: int32, allocationDone: bool)
    requires Valid(s)
    ensures var r := PutSpec(s, key, value, hash, allocationDone);
      && r.0.size == s.size + (if r.1.None? then 1 else 0)
      && PutMoves(Contents(s), Contents(r.0) + DroppedEntries(s), key, value, hash, r.1)
  {
    var e := PutInsert(s, key, value, hash);
    PutInsertAccounting(s, key, value, hash);
    PutInsertKeepsValid(s, key, value, hash);
    if e.1.None? && e.0.size > e.0.nextResize && e.0.oldTable.None? {
      ResizeStepKeeps(e.0, allocationDone);
    }
  }

  /** When a resize cycle starts or an allocation is submitted or claimed. The table length stays or
      doubles. It doubles only on an insert that takes `size` past `nextResize` with no migration in
      flight, below 1024 or by claiming a completed allocation; the new table is then empty and the
      table the insert left becomes the old one. Such an insert always acts: below 1024 it doubles
      the table; from 1024 it submits an allocation for twice the length when none is pending, and
      claims a pending one that is done. An allocation is submitted only at 1024 and above; a pending
      one is never replaced, and it is cleared only by being claimed, which gives the new table its
      length. While it is pending and not done, nothing about the resize state changes. */
  lemma PutResizeRules<K, V>(s: MapState<K, V>, key: K, value: V, hash: int32, allocationDone: bool)
    requires Valid(s)
    ensures var (s', prev) := PutSpec(s, key, value, hash, allocationDone);
      && (|s'.table| == |s.table| || |s'.table| == 2 * |s.table|)
      && (|s'.table| == |s.table| ==> s'.nextResize == s.nextResize)
      && (|s'.table| == 2 * |s.table| ==>
            && prev.None? && s'.size > s.nextResize && Drained(s).oldTable.None?
            && (|s.table| < ASYNC_THRESHOLD || (s.nextTable.Some? && allocationDone))
            && s'.nextResize == 2 * s.nextResize && s'.migrated == 0
            && s'.oldTable.Some? && s'.nextTable.None?
            && forall j :: 0 <= j < |s'.table| ==> s'.table[j] == [])
      && (|s'.table| == 2 * |s.table| ==> s'.oldTable == Some(PutInsert(s, key, value, hash).0.table))
      && ((prev.None? && s.size + 1 > s.nextResize && Drained(s).oldTable.None? && |s.table| < ASYNC_THRESHOLD)
            ==> |s'.table| == 2 * |s.table|)
      && ((prev.None? && s.size + 1 > s.nextResize && Drained(s).oldTable.None? && |s.table| >= ASYNC_THRESHOLD
           && s.nextTable.None?)
            ==> s'.nextTable == Some(2 * |s.table|) && |s'.table| == |s.table| && s'.oldTable.None?)
      && ((prev.None? && s.size + 1 > s.nextResize && Drained(s).oldTable.None? && |s.table| >= ASYNC_THRESHOLD
           && s.nextTable.Some? && allocationDone)
            ==> |s'.table| == 2 * |s.table| && s'.nextTable.None?)
      && (s.nextTable.None? && s'.nextTable.Some? ==>
            && prev.None? && s'.size > s.nextResize && |s.table| >= ASYNC_THRESHOLD
            && s'.nextTable == Some(2 * |s.table|) && |s'.table| == |s.table| && s'.oldTable.None?)
      && (s.nextTable.Some? ==>
            s'.nextTable == s.nextTable || (s'.nextTable.None? && allocationDone && |s'.table| == s.nextTable.value))
      && (s.nextTable.Some? && !allocationDone ==>
            && s'.nextTable == s.nextTable && |s'.table| == |s.table|
            && s'.oldTable.None? && s'.nextResize == s.nextResize)
  {
    var e := PutInsert(s, key, value, hash);
    PutInsertKeepsValid(s, key, value, hash);
    if e.1.None? && e.0.size > e.0.nextResize && e.0.oldTable.None? {
      ResizeStepKeeps(e.0, allocationDone);
    }
  }

  /** Whenever `get` returns, it agrees with a full walk of the chain it selected; it spins exactly
      when that chain is non-empty and its head does not match, even if a later entry does. */
  lemma LookupAgreesWithWalk<K, V>(s: MapState<K, V>, key: K, hash: int32)
    requires Valid(s)
    ensures var chain := LookupChain(s, hash); var r := LookupSpec(s, key, hash);
      && (r.Found? ==> FirstMatch(chain, hash, key) == Some(0) && r.value == chain[0].value)
      && (r.NotFound? <==> chain == [])
      && (r.NotFound? ==> FirstMatch(chain, hash, key).None?)
      && (r.Spins? <==> chain != [] && FirstMatch(chain, hash, key) != Some(0))
  {
  }

  lemma MultisetCancel<T>(a: multiset<T>, b: multiset<T>, x: multiset<T>)
    requires a + x == b + x
    ensures a == b
  {
    forall o
      ensures a[o] == b[o]
    {
      assert (a + x)[o] == (b + x)[o];
    }
  }

  /** A bucket's entries are among the table's entries. */
  lemma BucketInTable<K, V>(t: Table<K, V>, k: nat)
    requires k < |t|
    ensures multiset(t[k]) <= TableMultiset(t)
  {
    var rest := TableMultiset(t[k := []]);
    TableMultisetUpdate(t, k, []);
    assert rest + multiset(t[k]) == TableMultiset(t);
    assert multiset(t[k]) <= rest + multiset(t[k]);
  }

  /** `put` stores a key whose hash is 8 in bucket `8 & 7 == 0` of an empty 16-bucket map, and
      `get` then reads bucket `8 & 15 == 8`, which is empty. */
  lemma PutThenGetMisses()
    ensures var s := MapState(EmptyTable(16), None, 0, 0, 8, None);
      var r := PutSpec<int, int>(s, 8, 42, 8, false);
      && Valid(s) && r.1.None? && r.0.table[0] == [Entry(8, 8, 42)]
      && LookupSpec(r.0, 8, 8) == NotFound
  {
    var s: MapState<int, int> := MapState(EmptyTable(16), None, 0, 0, 8, None);
    assert Valid(s) by {
      assert IsPowerOfTwo(16) by {
        assert IsPowerOfTwo(2);
      }
    }
    var r := PutSpec(s, 8, 42, 8, false);
    assert r == (s.(table := s.table[0 := [Entry(8, 8, 42)]], size := 1), None) by {
      assert InsertIndex(8, |s.table|) == 0;
      ChainPutNotFound<int, int>([], 8, 42, 8);
    }
    assert LookupChain(r.0, 8) == [] by {
      assert MaskedIndex(8, 15) == 8;
    }
  }

  /** Two keys sharing bucket 0 of an empty 16-bucket map (hashes 0 and 16): `get` of the second
      reads the chain that holds it, but never returns, since the first key is at the head of the
      chain and the loop does not advance. */
  lemma GetSpinsPastHead()
    ensures var s0 := MapState(EmptyTable(16), None, 0, 0, 8, None);
      var s1 := s0.(table := s0.table[0 := [Entry(0, 0, 1)]], size := 1);
      var s2 := s1.(table := s1.table[0 := [Entry(0, 0, 1), Entry(16, 16, 2)]], size := 2);
      && Valid(s0) && PutSpec<int, int>(s0, 0, 1, 0, false) == (s1, None)
      && Valid(s1) && PutSpec(s1, 16, 2, 16, false) == (s2, None)
      && LookupChain(s2, 16) == [Entry(0, 0, 1), Entry(16, 16, 2)]
      && LookupSpec(s2, 16, 16) == Spins
  {
    var s0: MapState<int, int> := MapState(EmptyTable(16), None, 0, 0, 8, None);
    assert Valid(s0) by {
      assert IsPowerOfTwo(16) by {
        assert IsPowerOfTwo(2);
      }
    }
    var s1 := s0.(table := s0.table[0 := [Entry(0, 0, 1)]], size := 1);
    assert PutSpec(s0, 0, 1, 0, false) == (s1, None) by {
      assert InsertIndex(0, |s0.table|) == 0;
      ChainPutNotFound<int, int>([], 0, 1, 0);
    }
    var s2 := s1.(table := s1.table[0 := [Entry(0, 0, 1), Entry(16, 16, 2)]], size := 2);
    PutKeepsValid(s0, 0, 1, 0, false);
    assert PutSpec(s1, 16, 2, 16, false) == (s2, None) by {
      assert InsertIndex(16, |s1.table|) == 0;
      assert s1.table[0] == [Entry(0, 0, 1)];
      ChainPutNotFound<int, int>([Entry(0, 0, 1)], 16, 2, 16);
      assert [Entry(0, 0, 1)] + [Entry(16, 16, 2)] == [Entry(0, 0, 1), Entry(16, 16, 2)];
    }
    assert MaskedIndex(16, 15) == 0;
  }
}
