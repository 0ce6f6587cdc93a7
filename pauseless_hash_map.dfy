/** The map object itself: its bucket arrays and counters as fields, updated in place by `put`,
    with each method proved to act on the fields as the functions of `MapStates` say. */
module PauselessHashMaps {
  import opened Sizing
  import opened Chains
  import opened Migration
  import opened MapStates

  class PauselessHashMap<K(==), V> {
    /** `key.hashCode()`; key equality is Dafny's `==`. */
    const hashCode: K -> int32

    var migrated: int
    var oldTable: array?<Chain<K, V>>
    var table: array<Chain<K, V>>
    /** The pending allocation, as the length of the array it produces. */
    var nextTable: Option<nat>
    var size: int
    var nextResize: int

    /** The fields as a value of the state machine. */
    ghost function State(): MapState<K, V>
      reads this, table, oldTable
    {
      MapState(table[..], if oldTable == null then None else Some(oldTable[..]),
               migrated, size, nextResize, nextTable)
    }

    /** The two bucket arrays are distinct objects, and the fields satisfy the state invariant. */
    ghost predicate Valid()
      reads this, table, oldTable
    {
      oldTable != table && MapStates.Valid(State())
    }

    /** `new Entry[n]`: a fresh array of `n` null bucket heads. */
    static method NewTable(n: nat) returns (a: array<Chain<K, V>>)
      ensures fresh(a) && a[..] == EmptyTable(n)
    {
      a := new Chain<K, V>[n](_ => []);
    }

    /** Lines 61-67: a table of the hint rounded down to a power of two, at least 16 buckets, and
        a threshold of half its length. */
    constructor (initialSize: int32, hashCode: K -> int32)
      ensures Valid() && State() == InitialState(initialSize)
      ensures this.hashCode == hashCode
    {
      var n := InitialCapacity(initialSize);
      var buckets := NewTable(n);
      this.hashCode := hashCode;
      migrated := 0;
      oldTable := null;
      table := buckets;
      nextTable := None;
      size := 0;
      nextResize := n / 2;
    }

    /** Lines 74-86: prepends every entry of old bucket `index` to bucket `hash & newMask` of the
        current table, walking from the head, then empties the old bucket. */
    method Migrate(index: int, newMask: int)
      requires oldTable != null && oldTable != table && 0 <= index < oldTable.Length
      requires IsPowerOfTwo(table.Length) && newMask == table.Length - 1
      modifies table, oldTable
      ensures table[..] == MoveChain(old(oldTable[index]), old(table[..]))
      ensures oldTable[..] == old(oldTable[..])[index := []]
    {
      var entry := oldTable[index];
      while entry != []
        invariant oldTable[..] == old(oldTable[..])
        invariant MoveChain(entry, table[..]) == MoveChain(old(oldTable[index]), old(table[..]))
        decreases |entry|
      {
        var newIndex := MaskedIndex(entry[0].hash, newMask);
        table[newIndex] := [entry[0]] + table[newIndex];
        entry := entry[1..];
      }
      oldTable[index] := entry;
    }

    /** Lines 96-97: migrates old buckets `migrated`, ..., `migrated + 7` in that order, advancing
        `migrated` past each. */
    method MigrateBatch(mask: int)
      requires oldTable != null && oldTable != table
      requires IsPowerOfTwo(table.Length) && mask == table.Length - 1
      requires 0 <= migrated && migrated + BATCH <= oldTable.Length
      modifies this`migrated, table, oldTable
      ensures migrated == old(migrated) + BATCH
      ensures (oldTable[..], table[..]) == MigrateRange(old(oldTable[..]), old(table[..]), old(migrated), BATCH)
    {
      ghost var goal := MigrateRange(oldTable[..], table[..], migrated, BATCH);
      for i := 0 to BATCH
        invariant migrated == old(migrated) + i
        invariant MigrateRange(oldTable[..], table[..], migrated, BATCH - i) == goal
      {
        ghost var o, t := oldTable[..], table[..];
        assert MigrateRange(o, t, migrated, BATCH - i)
               == MigrateRange(o[migrated := []], MoveChain(o[migrated], t), migrated + 1, BATCH - i - 1);
        Migrate(migrated, mask);
        migrated := migrated + 1;
      }
    }

    /** Lines 94-99: one batch of migration, then the old table is dropped once `migrated`
        reaches its length. */
    method DrainBatch()
      requires Valid() && oldTable != null
      modifies this, table, oldTable
      ensures Valid() && State() == Drain(old(State()))
      ensures table == old(table) && (oldTable == null || oldTable == old(oldTable))
    {
      BatchFits(State());
      MigrateBatch(table.Length - 1);
      if migrated == oldTable.Length {
        oldTable := null;
      }
    }

    /** Lines 151-170: walks the chain of bucket `index` of `t`; a matching entry gets the new
        value and the previous one is returned, otherwise a new entry is linked at the tail (or
        becomes the bucket's head) and null is returned. */
    static method PutChain(key: K, value: V, hash: int32, index: int, t: array<Chain<K, V>>) returns (prev: Option<V>)
      requires 0 <= index < t.Length
      modifies t
      ensures var (c, p) := ChainPut(old(t[index]), key, value, hash);
        t[..] == old(t[..])[index := c] && prev == p
    {
      var chain := t[index];
      var i := 0;
      while i < |chain|
        invariant 0 <= i <= |chain|
        invariant forall j :: 0 <= j < i ==> !Matches(chain[j], hash, key)
      {
        if chain[i].hash == hash && chain[i].key == key {
          assert FirstMatch(chain, hash, key) == Some(i);
          prev := Some(chain[i].value);
          t[index] := chain[i := chain[i].(value := value)];
          return;
        }
        i := i + 1;
      }
      assert FirstMatch(chain, hash, key).None?;
      t[index] := chain + [Entry(key, hash, value)];
      prev := None;
    }

    /** Lines 111-146, once `size` has passed `nextResize` with no migration in flight: below 1024
        buckets the table doubles at once; from 1024 on, the first crossing submits the
        allocation, and a later one claims it once it is done. */
    method Resize(allocationDone: bool)
      requires Valid() && oldTable == null
      modifies this
      ensures Valid() && State() == ResizeStep(old(State()), allocationDone)
      ensures table == old(table) || fresh(table)
    {
      ghost var s := State();
      ResizeStepKeeps(s, allocationDone);
      if table.Length < ASYNC_THRESHOLD {
        nextResize := nextResize * 2;
        oldTable := table;
        migrated := 0;
        table := NewTable(table.Length * 2);
        assert State() == StartCycle(s, EmptyTable(2 * |s.table|));
      } else if nextTable.None? {
        nextTable := Some(2 * table.Length);
      } else if allocationDone {
        nextResize := nextResize * 2;
        oldTable := table;
        migrated := 0;
        table := NewTable(nextTable.value);
        nextTable := None;
        assert State() == StartCycle(s, EmptyTable(s.nextTable.value)).(nextTable := None);
      }
    }

    /** Lines 102-105: the chain put into an already drained old bucket, counting an insert. */
    method PutIntoOld(key: K, value: V, hash: int32, index: int) returns (result: Option<V>)
      requires oldTable != null && oldTable != table && 0 <= index < oldTable.Length
      modifies this, oldTable
      ensures (State(), result) == InsertIntoOld(old(State()), index, key, value, hash)
      ensures table == old(table) && oldTable == old(oldTable)
    {
      result := PutChain(key, value, hash, index, oldTable);
      if result.None? {
        size := size + 1;
      }
    }

    /** Lines 108-109 up to the threshold test: the chain put into the current table, counting an
        insert. */
    method PutIntoTable(key: K, value: V, hash: int32, index: int) returns (result: Option<V>)
      requires oldTable != table && 0 <= index < table.Length
      modifies this, table
      ensures (State(), result) == InsertIntoTable(old(State()), index, key, value, hash)
      ensures table == old(table) && oldTable == old(oldTable)
    {
      result := PutChain(key, value, hash, index, table);
      if result.None? {
        size := size + 1;
      }
    }

    /** Lines 100-109 after the batch: the chain put into old bucket `index` when the old table
        is present and that bucket is already drained (returning early at line 105), or else into
        bucket `index` of the current table. */
    method PutAt(key: K, value: V, hash: int32, index: int) returns (result: Option<V>)
      requires oldTable != table && 0 <= index < table.Length
      requires oldTable != null ==> migrated <= oldTable.Length
      modifies this, table, oldTable
      ensures (State(), result) == PutDrained(old(State()), index, key, value, hash)
      ensures table == old(table) && oldTable == old(oldTable)
    {
      if oldTable != null && index < migrated {
        result := PutIntoOld(key, value, hash, index);
        return;
      }
      result := PutIntoTable(key, value, hash, index);
    }

    /** Lines 93-109 up to the threshold test: a batch of migration while the old table is present,
        then the chain put into bucket `hash & (mask >> 1)` of the old or the current table. */
    method Insert(key: K, value: V, hash: int32) returns (result: Option<V>)
      requires Valid()
      modifies this, table, oldTable
      ensures Valid()
      ensures (State(), result) == PutInsert(old(State()), key, value, hash)
      ensures table == old(table)
    {
      ghost var s := State();
      PutInsertKeepsValid(s, key, value, hash);
      var index := InsertIndex(hash, table.Length);
      if oldTable != null {
        DrainBatch();
      }
      assert State() == Drained(s);
      result := PutAt(key, value, hash, index);
    }

    /** Lines 88-149: the public `put`. `allocationDone` is what `nextTable.isDone()` answers if
        it is asked. */
    method Put(key: K, value: V, allocationDone: bool) returns (result: Option<V>)
      requires Valid()
      modifies this, table, oldTable
      ensures Valid()
      ensures (State(), result) == PutSpec(old(State()), key, value, hashCode(key), allocationDone)
      ensures table == old(table) || fresh(table)
    {
      var hash := hashCode(key);
      result := Insert(key, value, hash);
      if result.None? && size > nextResize && oldTable == null {
        Resize(allocationDone);
      }
    }

    /** Lines 222-235: the public `get`. */
    method Get(key: K) returns (r: GetOutcome<V>)
      requires Valid()
      ensures r == LookupSpec(State(), key, hashCode(key))
    {
      var hash := hashCode(key);
      var mask := table.Length - 1;
      var chain: Chain<K, V>;
      if oldTable != null && InsertIndex(hash, table.Length) < migrated {
        chain := oldTable[InsertIndex(hash, table.Length)];
      } else {
        chain := table[MaskedIndex(hash, mask)];
      }
      if chain == [] {
        r := NotFound;
      } else if chain[0].hash == hash && chain[0].key == key {
        r := Found(chain[0].value);
      } else {
        r := Spins;
      }
    }
  }
}
