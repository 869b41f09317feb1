/** `removeObjectDuplicates` and `isEmptyObject` from util.js. */
module Objects {
  import opened Dict

  /** The values of the entries, in order. */
  function ValuesOf(d: seq<Entry>): (vs: seq<string>)
  {
    seq(|d|, i requires 0 <= i < |d| => d[i].value)
  }

  /** The dictionary `removeObjectDuplicates` has built after scanning the entries of `d`:
      an entry is kept when its value has not been kept before. */
  function Dedup(d: seq<Entry>): (r: seq<Entry>)
    decreases |d|
  {
    if d == [] then []
    else
      var kept := Dedup(d[..|d| - 1]);
      var e := d[|d| - 1];
      if e.value in ValuesOf(kept) then kept else kept + [e]
  }

  /** Pairwise distinct values. */
  ghost predicate DistinctValues(d: seq<Entry>) {
    forall i, j :: 0 <= i < j < |d| ==> d[i].value != d[j].value
  }

  /** The entry at position `i` is the first to hold its value. */
  ghost predicate FirstWithValue(d: seq<Entry>, i: nat)
    requires i < |d|
  {
    forall j :: 0 <= j < i ==> d[j].value != d[i].value
  }

  /** The output holds pairwise distinct values, and no more entries than the input. */
  lemma {:induction false} DedupDistinct(d: seq<Entry>)
    ensures DistinctValues(Dedup(d))
    ensures |Dedup(d)| <= |d|
    decreases |d|
  {
    if d != [] {
      var kept := Dedup(d[..|d| - 1]);
      var e := d[|d| - 1];
      DedupDistinct(d[..|d| - 1]);
      if e.value !in ValuesOf(kept) {
        forall i | 0 <= i < |kept| ensures kept[i].value != e.value {
          assert ValuesOf(kept)[i] == kept[i].value;
        }
      }
    }
  }

  /** Every value of the input is still present in the output, and no other. */
  lemma {:induction false} DedupKeepsValues(d: seq<Entry>)
    ensures forall v :: v in ValuesOf(Dedup(d)) <==> v in ValuesOf(d)
    decreases |d|
  {
    if d != [] {
      var prefix := d[..|d| - 1];
      DedupKeepsValues(prefix);
      assert ValuesOf(d) == ValuesOf(prefix) + [d[|d| - 1].value];
      var kept := Dedup(prefix);
      if d[|d| - 1].value !in ValuesOf(kept) {
        assert ValuesOf(kept + [d[|d| - 1]]) == ValuesOf(kept) + [d[|d| - 1].value];
      }
    }
  }

  /** The output is the input with some entries removed: there is a strictly increasing map from
      output positions to input positions that preserves each entry, key and value. */
  lemma {:induction false} DedupIsSubsequence(d: seq<Entry>) returns (pos: seq<nat>)
    ensures |pos| == |Dedup(d)|
    ensures forall i :: 0 <= i < |pos| ==> pos[i] < |d| && Dedup(d)[i] == d[pos[i]]
    ensures forall i, j :: 0 <= i < j < |pos| ==> pos[i] < pos[j]
    decreases |d|
  {
    if d == [] {
      pos := [];
    } else {
      var n := |d| - 1;
      var prefix := d[..n];
      pos := DedupIsSubsequence(prefix);
      if d[n].value !in ValuesOf(Dedup(prefix)) {
        pos := pos + [n];
      }
    }
  }

  /** An input entry survives exactly when it is the first to hold its value: later keys sharing
      a value are dropped and the earliest is kept. */
  lemma {:induction false} DedupKeepsFirst(d: seq<Entry>)
    requires UniqueKeys(d)
    ensures forall i :: 0 <= i < |d| ==> (d[i] in Dedup(d) <==> FirstWithValue(d, i))
    decreases |d|
  {
    if d != [] {
      var n := |d| - 1;
      var prefix := d[..n];
      var kept := Dedup(prefix);
      assert UniqueKeys(prefix);
      DedupKeepsFirst(prefix);
      DedupUniqueKeys(prefix);
      forall k | 0 <= k < |kept| ensures kept[k].key != d[n].key {
        assert kept[k] in prefix;
        var j :| 0 <= j < n && prefix[j] == kept[k];
        assert d[j] == kept[k];
      }
      assert d[n] !in kept;
      LastKeptIffFirst(d);
      var r := Dedup(d);
      assert r == if d[n].value in ValuesOf(kept) then kept else kept + [d[n]];
      assert d[n] in r <==> FirstWithValue(d, n);
      forall i | 0 <= i < |d|
        ensures d[i] in r <==> FirstWithValue(d, i)
      {
        if i < n {
          assert d[i].key != d[n].key;
          assert d[i] in r <==> d[i] in kept;
          assert prefix[i] == d[i];
          assert FirstWithValue(d, i) == FirstWithValue(prefix, i);
        }
      }
    }
  }

  /** The last entry is kept exactly when no earlier entry holds its value. */
  lemma LastKeptIffFirst(d: seq<Entry>)
    requires d != []
    ensures var n := |d| - 1;
      d[n].value !in ValuesOf(Dedup(d[..n])) <==> FirstWithValue(d, n)
  {
    var n := |d| - 1;
    var prefix := d[..n];
    DedupKeepsValues(prefix);
    if !FirstWithValue(d, n) {
      var j :| 0 <= j < n && d[j].value == d[n].value;
      assert ValuesOf(prefix)[j] == d[n].value;
    } else {
      forall j | 0 <= j < n ensures ValuesOf(prefix)[j] != d[n].value {
        assert prefix[j] == d[j];
      }
    }
  }

  /** Entries of the output come from the input, so keys stay unique. */
  lemma {:induction false} DedupUniqueKeys(d: seq<Entry>)
    requires UniqueKeys(d)
    ensures UniqueKeys(Dedup(d))
    ensures forall e :: e in Dedup(d) ==> e in d
  {
    var pos := DedupIsSubsequence(d);
    var r := Dedup(d);
    forall e | e in r ensures e in d {
      var i :| 0 <= i < |r| && r[i] == e;
      assert d[pos[i]] == e;
    }
    forall i, j | 0 <= i < j < |r| ensures r[i].key != r[j].key {
      assert r[i] == d[pos[i]] && r[j] == d[pos[j]];
    }
  }

  /** A dictionary whose values are already distinct is left as it is. */
  lemma {:induction false} DedupOfDistinct(d: seq<Entry>)
    requires DistinctValues(d)
    ensures Dedup(d) == d
    decreases |d|
  {
    if d != [] {
      var n := |d| - 1;
      var prefix := d[..n];
      assert DistinctValues(prefix) by {
        forall i, j | 0 <= i < j < n ensures prefix[i].value != prefix[j].value {
          assert prefix[i] == d[i] && prefix[j] == d[j];
        }
      }
      DedupOfDistinct(prefix);
      assert d[n].value !in ValuesOf(prefix) by {
        forall j | 0 <= j < n ensures ValuesOf(prefix)[j] != d[n].value {
          assert prefix[j] == d[j];
        }
      }
      assert Dedup(d) == prefix + [d[n]];
      assert prefix + [d[n]] == d;
    }
  }

  /** Removing duplicates twice is the same as removing them once. */
  lemma DedupIdempotent(d: seq<Entry>)
    ensures Dedup(Dedup(d)) == Dedup(d)
  {
    DedupDistinct(d);
    DedupOfDistinct(Dedup(d));
  }

  /** Removing duplicates empties only an empty dictionary. */
  lemma DedupEmpty(d: seq<Entry>)
    ensures Dedup(d) == [] <==> d == []
  {
    if d != [] {
      DedupKeepsValues(d);
      assert ValuesOf(d)[0] in ValuesOf(d);
    }
  }

  /** A dictionary made of entries that precede position `i` does not hold the key at `i`. */
  lemma NewKeyIsAbsent(sub: seq<Entry>, d: seq<Entry>, i: nat)
    requires UniqueKeys(d) && i < |d|
    requires forall e :: e in sub ==> e in d[..i]
    ensures Get(sub, d[i].key).None?
  {
    forall j | 0 <= j < |sub| ensures sub[j].key != d[i].key {
      assert sub[j] in d[..i];
      var k :| 0 <= k < i && d[..i][k] == sub[j];
      assert d[k] == sub[j];
    }
    GetFindsEntry(sub, d[i].key);
  }

  /** `removeObjectDuplicates(object)`: a fresh dictionary with the first key for each value. */
  method RemoveObjectDuplicates(obj: Dictionary) returns (result: Dictionary)
    requires obj.Valid()
    ensures fresh(result) && result.Valid()
    ensures result.entries == Dedup(obj.entries)
  {
    var values: seq<string> := [];
    result := new Dictionary();
    var entries := obj.entries;
    var i := 0;
    while i < |entries|
      invariant 0 <= i <= |entries|
      invariant result.Valid() && result.entries == Dedup(entries[..i])
      invariant values == ValuesOf(result.entries)
    {
      var key := entries[i].key;
      var value := entries[i].value;
      assert entries[..i + 1][..i] == entries[..i];
      if value !in values {
        DedupUniqueKeys(entries[..i]);
        NewKeyIsAbsent(result.entries, entries, i);
        PutShape(result.entries, key, value);
        values := values + [value];
        result.Set(key, value);
      }
      i := i + 1;
    }
    assert entries[..i] == entries;
  }

  /** `isEmptyObject(object)`: looks for a first key and stops there; the `break` after the
      first key is the second conjunct of the loop guard. */
  method IsEmptyObject(obj: Dictionary) returns (empty: bool)
    ensures empty <==> obj.entries == []
  {
    empty := true;
    var i := 0;
    while i < |obj.entries| && empty
      invariant i <= |obj.entries|
      invariant empty <==> i == 0
    {
      empty := false;
      i := i + 1;
    }
  }
}
