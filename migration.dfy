/** Moving chains from the old bucket array into the doubled one: `migrate` and the batch drain,
    as functions on table contents, with the facts that make them a move and not a copy. */
module Migration {
  import opened Sizing
  import opened Chains

  /** Walks `c` from its head and prepends each entry to the bucket `hash & (|t| - 1)` of `t`:
      the table that `migrate`'s loop leaves behind. */
  function MoveChain<K, V>(c: Chain<K, V>, t: Table<K, V>): (r: Table<K, V>)
    requires IsPowerOfTwo(|t|)
    ensures |r| == |t|
    decreases |c|
  {
    if c == [] then t
    else
      var b := MaskedIndex(c[0].hash, |t| - 1);
      MoveChain(c[1..], t[b := [c[0]] + t[b]])
  }

  /** The entries of `c` whose bucket in a table of length `len` is `j`, in chain order. */
  function Landing<K, V>(c: Chain<K, V>, len: nat, j: nat): Chain<K, V>
    requires IsPowerOfTwo(len)
  {
    if c == [] then []
    else (if MaskedIndex(c[0].hash, len - 1) == j then [c[0]] else []) + Landing(c[1..], len, j)
  }

  function Reverse<T>(s: seq<T>): seq<T> {
    if s == [] then [] else Reverse(s[1..]) + [s[0]]
  }

  /** The chains of consecutive buckets, joined in bucket order. */
  function Concat<K, V>(ts: seq<Chain<K, V>>): Chain<K, V> {
    if ts == [] then [] else ts[0] + Concat(ts[1..])
  }

  /** Multiset of all entries held by the chains of a table. */
  ghost function TableMultiset<K, V>(t: Table<K, V>): multiset<Entry<K, V>> {
    multiset(Concat(t))
  }

  /** Migrates old buckets `from`, `from + 1`, ..., `from + count - 1` in that order: the first
      component is the old table, the second the new one. */
  function MigrateRange<K, V>(o: Table<K, V>, t: Table<K, V>, from: nat, count: nat): (r: (Table<K, V>, Table<K, V>))
    requires from + count <= |o| && IsPowerOfTwo(|t|)
    ensures |r.0| == |o| && |r.1| == |t|
    decreases count
  {
    if count == 0 then (o, t)
    else MigrateRange(o[from := []], MoveChain(o[from], t), from + 1, count - 1)
  }

  lemma {:induction false} ReverseFacts<T>(s: seq<T>)
    ensures |Reverse(s)| == |s| && multiset(Reverse(s)) == multiset(s)
  {
    if s != [] {
      ReverseFacts(s[1..]);
      assert s == [s[0]] + s[1..];
    }
  }

  /** Every entry of `c` lands in the bucket its hash selects, and only those entries do. */
  lemma {:induction false} LandingMembers<K, V>(c: Chain<K, V>, len: nat, j: nat)
    requires IsPowerOfTwo(len)
    ensures forall e :: e in Landing(c, len, j) <==> e in c && MaskedIndex(e.hash, len - 1) == j
  {
    if c != [] {
      LandingMembers(c[1..], len, j);
      assert c == [c[0]] + c[1..];
    }
  }

  /** Migrating `c` onto `t` prepends to bucket `j` exactly the entries of `c` that belong there,
      in reverse of their order in `c`, ahead of what `j` held before. */
  lemma {:induction false} MoveChainBuckets<K, V>(c: Chain<K, V>, t: Table<K, V>)
    requires IsPowerOfTwo(|t|)
    ensures forall j :: 0 <= j < |t| ==> MoveChain(c, t)[j] == Reverse(Landing(c, |t|, j)) + t[j]
  {
    if c != [] {
      var b := MaskedIndex(c[0].hash, |t| - 1);
      var t' := t[b := [c[0]] + t[b]];
      MoveChainBuckets(c[1..], t');
      forall j | 0 <= j < |t|
        ensures MoveChain(c, t)[j] == Reverse(Landing(c, |t|, j)) + t[j]
      {
        var rest := Landing(c[1..], |t|, j);
        if b == j {
          assert Landing(c, |t|, j) == [c[0]] + rest;
          assert ([c[0]] + rest)[1..] == rest;
          assert Reverse(Landing(c, |t|, j)) == Reverse(rest) + [c[0]];
        } else {
          assert Landing(c, |t|, j) == rest;
        }
      }
    }
  }

  /** Every entry of the migrated chain is afterwards in the bucket `hash & mask` of the new table. */
  lemma MoveChainPlacesEntries<K, V>(c: Chain<K, V>, t: Table<K, V>)
    requires IsPowerOfTwo(|t|)
    ensures forall e :: e in c ==> e in MoveChain(c, t)[MaskedIndex(e.hash, |t| - 1)]
  {
    MoveChainBuckets(c, t);
    forall e | e in c
      ensures e in MoveChain(c, t)[MaskedIndex(e.hash, |t| - 1)]
    {
      var j := MaskedIndex(e.hash, |t| - 1);
      var l := Landing(c, |t|, j);
      assert e in l by {
        LandingMembers(c, |t|, j);
      }
      assert e in Reverse(l) by {
        ReverseFacts(l);
        assert e in multiset(Reverse(l));
      }
      assert MoveChain(c, t)[j] == Reverse(l) + t[j];
    }
  }

  lemma {:induction false} ConcatAppend<K, V>(a: Table<K, V>, b: Table<K, V>)
    ensures Concat(a + b) == Concat(a) + Concat(b)
  {
    if a == [] {
      assert a + b == b;
    } else {
      ConcatAppend(a[1..], b);
      assert (a + b)[1..] == a[1..] + b;
      assert (a + b)[0] == a[0];
    }
  }

  /** Updating one bucket of a table replaces that bucket's entries in the table's multiset. */
  lemma TableMultisetUpdate<K, V>(t: Table<K, V>, k: nat, x: Chain<K, V>)
    requires k < |t|
    ensures TableMultiset(t[k := x]) + multiset(t[k]) == TableMultiset(t) + multiset(x)
  {
    var pre, post := t[..k], t[k + 1..];
    assert t == pre + [t[k]] + post;
    assert t[k := x] == pre + [x] + post;
    ConcatAppend(pre + [t[k]], post);
    ConcatAppend(pre, [t[k]]);
    ConcatAppend(pre + [x], post);
    ConcatAppend(pre, [x]);
    assert Concat([t[k]]) == t[k] && Concat([x]) == x by {
      assert [t[k]][1..] == [] && [x][1..] == [];
    }
  }

  /** Prepending one entry to one bucket adds exactly that entry to the table's multiset. */
  lemma TableMultisetPrepend<K, V>(t: Table<K, V>, k: nat, e: Entry<K, V>)
    requires k < |t|
    ensures TableMultiset(t[k := [e] + t[k]]) == TableMultiset(t) + multiset{e}
  {
    var pre, post := t[..k], t[k + 1..];
    assert t == pre + [t[k]] + post;
    assert t[k := [e] + t[k]] == pre + [[e] + t[k]] + post;
    ConcatAppend(pre + [t[k]], post);
    ConcatAppend(pre, [t[k]]);
    ConcatAppend(pre + [[e] + t[k]], post);
    ConcatAppend(pre, [[e] + t[k]]);
    assert Concat([t[k]]) == t[k] && Concat([[e] + t[k]]) == [e] + t[k] by {
      assert [t[k]][1..] == [] && [[e] + t[k]][1..] == [];
    }
  }

  lemma TableMultisetAppend<K, V>(a: Table<K, V>, b: Table<K, V>)
    ensures TableMultiset(a + b) == TableMultiset(a) + TableMultiset(b)
  {
    ConcatAppend(a, b);
  }

  /** A table whose buckets are all empty holds no entries. */
  lemma {:induction false} TableMultisetEmpty<K, V>(t: Table<K, V>)
    requires forall j :: 0 <= j < |t| ==> t[j] == []
    ensures TableMultiset(t) == multiset{}
  {
    if t != [] {
      TableMultisetEmpty(t[1..]);
    }
  }

  /** Migration is a move: the new table gains exactly the entries of the migrated chain. */
  lemma {:induction false} MoveChainMultiset<K, V>(c: Chain<K, V>, t: Table<K, V>)
    requires IsPowerOfTwo(|t|)
    ensures TableMultiset(MoveChain(c, t)) == TableMultiset(t) + multiset(c)
  {
    if c != [] {
      var b := MaskedIndex(c[0].hash, |t| - 1);
      var t' := t[b := [c[0]] + t[b]];
      calc {
        TableMultiset(MoveChain(c, t));
        TableMultiset(MoveChain(c[1..], t'));
        { MoveChainMultiset(c[1..], t'); }
        TableMultiset(t') + multiset(c[1..]);
        { TableMultisetPrepend(t, b, c[0]); }
        (TableMultiset(t) + multiset{c[0]}) + multiset(c[1..]);
        TableMultiset(t) + (multiset{c[0]} + multiset(c[1..]));
        { assert c == [c[0]] + c[1..]; }
        TableMultiset(t) + multiset(c);
      }
    }
  }

  /** `migrate` of one old bucket is a move: across the two tables no entry is created or lost. */
  lemma MigrateBucketMultiset<K, V>(o: Table<K, V>, t: Table<K, V>, i: nat)
    requires i < |o| && IsPowerOfTwo(|t|)
    ensures TableMultiset(o[i := []]) + TableMultiset(MoveChain(o[i], t)) == TableMultiset(o) + TableMultiset(t)
  {
    calc {
      TableMultiset(o[i := []]) + TableMultiset(MoveChain(o[i], t));
      { MoveChainMultiset(o[i], t); }
      TableMultiset(o[i := []]) + (TableMultiset(t) + multiset(o[i]));
      (TableMultiset(o[i := []]) + multiset(o[i])) + TableMultiset(t);
      { TableMultisetUpdate(o, i, []); }
      TableMultiset(o) + TableMultiset(t);
    }
  }

  /** Migrating two chains one after the other is migrating their concatenation. */
  lemma {:induction false} MoveChainConcat<K, V>(a: Chain<K, V>, b: Chain<K, V>, t: Table<K, V>)
    requires IsPowerOfTwo(|t|)
    ensures MoveChain(a + b, t) == MoveChain(b, MoveChain(a, t))
  {
    if a == [] {
      assert a + b == b;
    } else {
      var x := MaskedIndex(a[0].hash, |t| - 1);
      MoveChainConcat(a[1..], b, t[x := [a[0]] + t[x]]);
      assert (a + b)[1..] == a[1..] + b;
      assert (a + b)[0] == a[0];
    }
  }

  /** Migrating `count` consecutive old buckets empties exactly those buckets and leaves every other
      old bucket untouched. */
  lemma {:induction false} MigrateRangeOld<K, V>(o: Table<K, V>, t: Table<K, V>, from: nat, count: nat)
    requires from + count <= |o| && IsPowerOfTwo(|t|)
    decreases count
    ensures forall k :: 0 <= k < |o| ==>
      MigrateRange(o, t, from, count).0[k] == if from <= k < from + count then [] else o[k]
  {
    if count > 0 {
      MigrateRangeOld(o[from := []], MoveChain(o[from], t), from + 1, count - 1);
    }
  }

  /** After migrating `count` consecutive old buckets, the old table holds the entries of the
      buckets before and after the migrated range. */
  lemma MigrateRangeRemaining<K, V>(o: Table<K, V>, t: Table<K, V>, from: nat, count: nat)
    requires from + count <= |o| && IsPowerOfTwo(|t|)
    ensures TableMultiset(MigrateRange(o, t, from, count).0)
            == TableMultiset(o[..from]) + TableMultiset(o[from + count..])
  {
    var r := MigrateRange(o, t, from, count).0;
    MigrateRangeOld(o, t, from, count);
    var mid := r[from..from + count];
    assert r == o[..from] + mid + o[from + count..];
    TableMultisetAppend(o[..from] + mid, o[from + count..]);
    TableMultisetAppend(o[..from], mid);
    TableMultisetEmpty(mid);
  }

  /** The new table after migrating `count` consecutive old buckets is the one that migrating their
      chains, joined in bucket order, gives. */
  lemma {:induction false} MigrateRangeNew<K, V>(o: Table<K, V>, t: Table<K, V>, from: nat, count: nat)
    requires from + count <= |o| && IsPowerOfTwo(|t|)
    decreases count
    ensures MigrateRange(o, t, from, count).1 == MoveChain(Concat(o[from..from + count]), t)
  {
    if count == 0 {
      assert o[from..from + count] == [];
    } else {
      var o' := o[from := []];
      MigrateRangeNew(o', MoveChain(o[from], t), from + 1, count - 1);
      assert o'[from + 1..from + count] == o[from + 1..from + count];
      assert o[from..from + count][1..] == o[from + 1..from + count];
      MoveChainConcat(o[from], Concat(o[from + 1..from + count]), t);
    }
  }

  /** The batch is a move: no entry is created or lost across the two tables. */
  lemma {:induction false} MigrateRangeMultiset<K, V>(o: Table<K, V>, t: Table<K, V>, from: nat, count: nat)
    requires from + count <= |o| && IsPowerOfTwo(|t|)
    decreases count
    ensures var r := MigrateRange(o, t, from, count);
      TableMultiset(r.0) + TableMultiset(r.1) == TableMultiset(o) + TableMultiset(t)
  {
    if count > 0 {
      var o' := o[from := []];
      var t' := MoveChain(o[from], t);
      var r := MigrateRange(o', t', from + 1, count - 1);
      assert MigrateRange(o, t, from, count) == r;
      MigrateRangeMultiset(o', t', from + 1, count - 1);
      TableMultisetUpdate(o, from, []);
      MoveChainMultiset(o[from], t);
      calc {
        TableMultiset(r.0) + TableMultiset(r.1);
        TableMultiset(o') + TableMultiset(t');
        TableMultiset(o') + (TableMultiset(t) + multiset(o[from]));
        (TableMultiset(o') + multiset(o[from])) + TableMultiset(t);
        { assert multiset(o'[from]) == multiset{}; }
        TableMultiset(o) + TableMultiset(t);
      }
    }
  }
}
