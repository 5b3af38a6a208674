/** The incremental merge both loaders are built on: take the keys already
    stored once, then walk the incoming rows in order, skipping a row whose
    key has been seen and otherwise inserting it and remembering its key. */
module Dedup {
  import opened Seqs

  /** The rows the merge inserts, given the keys `seen` so far. */
  function Fresh<R, K>(seen: set<K>, rows: seq<R>, key: R -> K): (ins: seq<R>)
    ensures |ins| <= |rows|
    ensures forall i :: 0 <= i < |ins| ==> ins[i] in rows && key(ins[i]) !in seen
    decreases |rows|
  {
    if rows == [] then []
    else
      var k := key(rows[0]);
      var rest := if k in seen then Fresh(seen, rows[1..], key) else Fresh(seen + {k}, rows[1..], key);
      assert forall x :: x in rows[1..] ==> x in rows;
      if k in seen then rest else [rows[0]] + rest
  }

  /** The inserted rows carry each new key once: their keys are pairwise
      distinct and are exactly the incoming keys not seen before. */
  lemma {:induction false} FreshKeys<R, K>(seen: set<K>, rows: seq<R>, key: R -> K)
    ensures UniqueBy(Fresh(seen, rows, key), key)
    ensures KeysOf(Fresh(seen, rows, key), key) == KeysOf(rows, key) - seen
    decreases |rows|
  {
    if rows != [] {
      var k := key(rows[0]);
      KeysOfCons(rows, key);
      if k in seen {
        FreshKeys(seen, rows[1..], key);
      } else {
        var rest := Fresh(seen + {k}, rows[1..], key);
        FreshKeys(seen + {k}, rows[1..], key);
        var ins := [rows[0]] + rest;
        assert Fresh(seen, rows, key) == ins;
        KeysOfCons(ins, key);
        assert ins[1..] == rest;
        forall i, j | 0 <= i < j < |ins|
          ensures key(ins[i]) != key(ins[j])
        {
          assert ins[j] == rest[j - 1];
          if i > 0 {
            assert ins[i] == rest[i - 1];
          } else {
            assert key(rest[j - 1]) in KeysOf(rest, key);
          }
        }
      }
    }
  }

  lemma KeysOfCons<R, K>(s: seq<R>, key: R -> K)
    requires s != []
    ensures KeysOf(s, key) == {key(s[0])} + KeysOf(s[1..], key)
  {
    forall k | k in KeysOf(s, key)
      ensures k in {key(s[0])} + KeysOf(s[1..], key)
    {
      var i :| 0 <= i < |s| && key(s[i]) == k;
      if i > 0 {
        assert key(s[1..][i - 1]) == k;
      }
    }
  }

  /** Keys that are pairwise distinct are as many as the rows carrying them. */
  lemma {:induction false} UniqueKeysCount<R, K>(s: seq<R>, key: R -> K)
    requires UniqueBy(s, key)
    ensures |KeysOf(s, key)| == |s|
    decreases |s|
  {
    if s != [] {
      KeysOfCons(s, key);
      UniqueKeysCount(s[1..], key);
      assert forall i :: 0 <= i < |s[1..]| ==> key(s[1..][i]) != key(s[0]) by {
        forall i | 0 <= i < |s[1..]|
          ensures key(s[1..][i]) != key(s[0])
        {
          assert s[1..][i] == s[i + 1];
        }
      }
    }
  }

  /** The number of rows inserted is the number of distinct new keys. */
  lemma FreshCount<R, K>(seen: set<K>, rows: seq<R>, key: R -> K)
    ensures |Fresh(seen, rows, key)| == |KeysOf(rows, key) - seen|
  {
    FreshKeys(seen, rows, key);
    UniqueKeysCount(Fresh(seen, rows, key), key);
  }

  /** Nothing is inserted once every incoming key has been seen. */
  lemma {:induction false} FreshOfSeen<R, K>(seen: set<K>, rows: seq<R>, key: R -> K)
    requires KeysOf(rows, key) <= seen
    ensures Fresh(seen, rows, key) == []
    decreases |rows|
  {
    if rows != [] {
      KeysOfCons(rows, key);
      FreshOfSeen(seen, rows[1..], key);
    }
  }

  /** Merging the same rows a second time, against the keys the first
      merge left behind, inserts nothing. */
  lemma MergeIdempotent<R, K>(existing: set<K>, rows: seq<R>, key: R -> K)
    ensures Fresh(existing + KeysOf(Fresh(existing, rows, key), key), rows, key) == []
  {
    FreshKeys(existing, rows, key);
    FreshOfSeen(existing + KeysOf(Fresh(existing, rows, key), key), rows, key);
  }

  /** Two incoming rows with the same new key yield one insert. */
  lemma DuplicateInBatch<R, K>(existing: set<K>, a: R, b: R, key: R -> K)
    requires key(a) == key(b) && key(a) !in existing
    ensures Fresh(existing, [a, b], key) == [a]
  {
    assert [a, b][1..] == [b];
    assert [b][1..] == [];
  }

  /** Two incoming rows whose keys differ in anything are both inserted when new. */
  lemma DistinctKeysInBatch<R, K>(existing: set<K>, a: R, b: R, key: R -> K)
    requires key(a) != key(b) && key(a) !in existing && key(b) !in existing
    ensures Fresh(existing, [a, b], key) == [a, b]
  {
    assert [a, b][1..] == [b];
    assert [b][1..] == [];
  }

  lemma FreshUnfold<R, K>(seen: set<K>, rows: seq<R>, key: R -> K)
    requires rows != []
    ensures key(rows[0]) in seen ==> Fresh(seen, rows, key) == Fresh(seen, rows[1..], key)
    ensures key(rows[0]) !in seen ==>
              Fresh(seen, rows, key) == [rows[0]] + Fresh(seen + {key(rows[0])}, rows[1..], key)
  {
  }

  /** The loader's loop: one pass over the rows with a growing set of seen keys. */
  method MergeRows<R, K>(existing: set<K>, rows: seq<R>, key: R -> K) returns (inserted: seq<R>, count: nat)
    ensures inserted == Fresh(existing, rows, key)
    ensures count == |inserted|
  {
    var seen := existing;
    inserted := [];
    count := 0;
    var i := 0;
    while i < |rows|
      invariant 0 <= i <= |rows|
      invariant count == |inserted|
      invariant inserted + Fresh(seen, rows[i..], key) == Fresh(existing, rows, key)
    {
      var k := key(rows[i]);
      var rest := rows[i + 1..];
      assert rows[i..][1..] == rest;
      FreshUnfold(seen, rows[i..], key);
      if k in seen {
        i := i + 1;
        continue;
      }
      assert inserted + Fresh(seen, rows[i..], key) == (inserted + [rows[i]]) + Fresh(seen + {k}, rest, key);
      inserted := inserted + [rows[i]];
      seen := seen + {k};
      count := count + 1;
      i := i + 1;
    }
    assert rows[i..] == [];
  }

  lemma KeysOfAppend<T, K>(a: seq<T>, b: seq<T>, key: T -> K)
    ensures KeysOf(a + b, key) == KeysOf(a, key) + KeysOf(b, key)
  {
    forall k | k in KeysOf(a + b, key)
      ensures k in KeysOf(a, key) + KeysOf(b, key)
    {
      var i :| 0 <= i < |a + b| && key((a + b)[i]) == k;
      if i >= |a| {
        assert key(b[i - |a|]) == k;
      } else {
        assert key(a[i]) == k;
      }
    }
    forall k | k in KeysOf(a, key)
      ensures k in KeysOf(a + b, key)
    {
      var i :| 0 <= i < |a| && key(a[i]) == k;
      assert (a + b)[i] == a[i];
    }
    forall k | k in KeysOf(b, key)
      ensures k in KeysOf(a + b, key)
    {
      var i :| 0 <= i < |b| && key(b[i]) == k;
      assert (a + b)[|a| + i] == b[i];
    }
  }

  /** Two key-unique tables with disjoint keys make a key-unique table. */
  lemma AppendUnique<T, K>(a: seq<T>, b: seq<T>, key: T -> K)
    requires UniqueBy(a, key) && UniqueBy(b, key)
    requires KeysOf(a, key) !! KeysOf(b, key)
    ensures UniqueBy(a + b, key)
  {
    forall i, j | 0 <= i < j < |a + b|
      ensures key((a + b)[i]) != key((a + b)[j])
    {
      if j >= |a| {
        assert (a + b)[j] == b[j - |a|];
        assert key(b[j - |a|]) in KeysOf(b, key);
        if i < |a| {
          assert (a + b)[i] == a[i];
          assert key(a[i]) in KeysOf(a, key);
        } else {
          assert (a + b)[i] == b[i - |a|];
        }
      } else {
        assert (a + b)[i] == a[i];
        assert (a + b)[j] == a[j];
      }
    }
  }

  /** The inserted rows converted, each with its position. */
  function Converted<T, R>(ins: seq<R>, conv: (R, nat) -> T): (added: seq<T>)
    ensures |added| == |ins|
    ensures forall i :: 0 <= i < |ins| ==> added[i] == conv(ins[i], i)
  {
    seq(|ins|, i requires 0 <= i < |ins| => conv(ins[i], i))
  }

  /** Conversion keeps the key of every row. */
  lemma ConvertedKeys<T, R(!new), K>(ins: seq<R>, tkey: T -> K, rkey: R -> K, conv: (R, nat) -> T)
    requires forall row, i :: tkey(conv(row, i)) == rkey(row)
    ensures KeysOf(Converted(ins, conv), tkey) == KeysOf(ins, rkey)
    ensures UniqueBy(ins, rkey) ==> UniqueBy(Converted(ins, conv), tkey)
  {
    var added := Converted(ins, conv);
    assert forall i :: 0 <= i < |added| ==> tkey(added[i]) == rkey(ins[i]);
    forall k | k in KeysOf(ins, rkey)
      ensures k in KeysOf(added, tkey)
    {
      var i :| 0 <= i < |ins| && rkey(ins[i]) == k;
      assert tkey(added[i]) == k;
    }
  }

  /** What appending the converted new rows to a table does to its keys. */
  lemma AppendConverted<T, R(!new), K>(table: seq<T>, rows: seq<R>, tkey: T -> K, rkey: R -> K, conv: (R, nat) -> T)
    requires forall row, i :: tkey(conv(row, i)) == rkey(row)
    ensures var r := table + Converted(Fresh(KeysOf(table, tkey), rows, rkey), conv);
            && |r| - |table| == |KeysOf(rows, rkey) - KeysOf(table, tkey)|
            && KeysOf(r, tkey) == KeysOf(table, tkey) + KeysOf(rows, rkey)
            && (UniqueBy(table, tkey) ==> UniqueBy(r, tkey))
  {
    var ins := Fresh(KeysOf(table, tkey), rows, rkey);
    var added := Converted(ins, conv);
    assert UniqueBy(ins, rkey) && KeysOf(ins, rkey) == KeysOf(rows, rkey) - KeysOf(table, tkey) by {
      FreshKeys(KeysOf(table, tkey), rows, rkey);
    }
    assert UniqueBy(added, tkey) && KeysOf(added, tkey) == KeysOf(ins, rkey) by {
      ConvertedKeys(ins, tkey, rkey, conv);
    }
    assert KeysOf(table + added, tkey) == KeysOf(table, tkey) + KeysOf(added, tkey) by {
      KeysOfAppend(table, added, tkey);
    }
    assert |added| == |KeysOf(rows, rkey) - KeysOf(table, tkey)| by {
      FreshCount(KeysOf(table, tkey), rows, rkey);
    }
    if UniqueBy(table, tkey) {
      AppendUnique(table, added, tkey);
    }
  }

  /** `r` is `table` merged with `rows`: the stored rows come first and
      unchanged, one row is added per incoming key not stored before, the
      keys are those stored plus those incoming, and unique keys stay unique. */
  ghost predicate MergedFrom<T, R, K>(table: seq<T>, rows: seq<R>, tkey: T -> K, rkey: R -> K, r: seq<T>) {
    && |table| <= |r| && r[..|table|] == table
    && |r| - |table| == |KeysOf(rows, rkey) - KeysOf(table, tkey)|
    && KeysOf(r, tkey) == KeysOf(table, tkey) + KeysOf(rows, rkey)
    && (UniqueBy(table, tkey) ==> UniqueBy(r, tkey))
  }

  /** A table after the merge: the existing rows followed by the incoming
      rows with new keys, each converted with its position among the
      inserted ones (the position is what a serial id is drawn from). */
  function MergeTable<T, R(!new), K(==)>(table: seq<T>, rows: seq<R>, tkey: T -> K, rkey: R -> K, conv: (R, nat) -> T): (r: seq<T>)
    requires forall row, i :: tkey(conv(row, i)) == rkey(row)
    ensures MergedFrom(table, rows, tkey, rkey, r)
    ensures r[|table|..] == Converted(Fresh(KeysOf(table, tkey), rows, rkey), conv)
  {
    AppendConverted(table, rows, tkey, rkey, conv);
    var r := table + Converted(Fresh(KeysOf(table, tkey), rows, rkey), conv);
    assert r[..|table|] == table;
    assert r[|table|..] == Converted(Fresh(KeysOf(table, tkey), rows, rkey), conv);
    r
  }

  /** Merging rows whose keys are all stored leaves the table as it is. */
  lemma MergeTableOfStored<T, R(!new), K>(table: seq<T>, rows: seq<R>, tkey: T -> K, rkey: R -> K, conv: (R, nat) -> T)
    requires forall row, i :: tkey(conv(row, i)) == rkey(row)
    requires KeysOf(rows, rkey) <= KeysOf(table, tkey)
    ensures MergeTable(table, rows, tkey, rkey, conv) == table
  {
    FreshOfSeen(KeysOf(table, tkey), rows, rkey);
  }

  /** One row merged into an empty table is inserted, at position 0. */
  lemma MergeOneIntoEmpty<T, R(!new), K>(row: R, tkey: T -> K, rkey: R -> K, conv: (R, nat) -> T)
    requires forall r, i :: tkey(conv(r, i)) == rkey(r)
    ensures MergeTable([], [row], tkey, rkey, conv) == [conv(row, 0)]
  {
    assert Fresh({}, [row], rkey) == [row];
  }

  /** Every appended row converts back to an incoming row. */
  lemma MergedFromRows<T, R(!new), K>(table: seq<T>, rows: seq<R>, tkey: T -> K, rkey: R -> K, conv: (R, nat) -> T, back: T -> R)
    requires forall row, i :: tkey(conv(row, i)) == rkey(row)
    requires forall row, i :: back(conv(row, i)) == row
    ensures var r := MergeTable(table, rows, tkey, rkey, conv);
            forall i :: |table| <= i < |r| ==> back(r[i]) in rows
  {
    var r := MergeTable(table, rows, tkey, rkey, conv);
    var ins := Fresh(KeysOf(table, tkey), rows, rkey);
    forall i | |table| <= i < |r|
      ensures back(r[i]) in rows
    {
      var k := i - |table|;
      assert r[i] == r[|table|..][k] == Converted(ins, conv)[k];
      assert back(r[i]) == ins[k];
    }
  }

  /** The n-th appended row was converted with position n. */
  lemma MergedPositions<T, R(!new), K>(table: seq<T>, rows: seq<R>, tkey: T -> K, rkey: R -> K, conv: (R, nat) -> T, pos: T -> int)
    requires forall row, i :: tkey(conv(row, i)) == rkey(row)
    requires forall row, i :: pos(conv(row, i)) == i
    ensures var r := MergeTable(table, rows, tkey, rkey, conv);
            forall i :: |table| <= i < |r| ==> pos(r[i]) == i - |table|
  {
    var r := MergeTable(table, rows, tkey, rkey, conv);
    var ins := Fresh(KeysOf(table, tkey), rows, rkey);
    forall i | |table| <= i < |r|
      ensures pos(r[i]) == i - |table|
    {
      var k := i - |table|;
      assert r[i] == r[|table|..][k] == Converted(ins, conv)[k];
    }
  }

  /** What every conversion guarantees holds of every appended row. */
  lemma MergedSatisfy<T, R(!new), K>(table: seq<T>, rows: seq<R>, tkey: T -> K, rkey: R -> K, conv: (R, nat) -> T, p: T -> bool)
    requires forall row, i :: tkey(conv(row, i)) == rkey(row)
    requires forall row, i :: p(conv(row, i))
    ensures var r := MergeTable(table, rows, tkey, rkey, conv);
            forall i :: |table| <= i < |r| ==> p(r[i])
  {
    var r := MergeTable(table, rows, tkey, rkey, conv);
    var ins := Fresh(KeysOf(table, tkey), rows, rkey);
    forall i | |table| <= i < |r|
      ensures p(r[i])
    {
      var k := i - |table|;
      assert r[i] == r[|table|..][k] == Converted(ins, conv)[k];
    }
  }

  lemma KeysOfPair<R, K>(a: R, b: R, key: R -> K)
    ensures KeysOf([a, b], key) == {key(a), key(b)}
  {
    assert key([a, b][0]) == key(a) && key([a, b][1]) == key(b);
  }
}
