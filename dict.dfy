/** A plain JavaScript object used as a dictionary from strings to strings:
    its own keys, each once, in insertion order. */
module Dict {

  datatype Option<T> = None | Some(value: T)

  datatype Entry = Entry(key: string, value: string)

  /** Every key occurs once, as in a JavaScript object. */
  ghost predicate UniqueKeys(d: seq<Entry>) {
    forall i, j :: 0 <= i < j < |d| ==> d[i].key != d[j].key
  }

  /** `object[key]`: the value stored under `key`, or undefined. */
  function Get(d: seq<Entry>, key: string): Option<string>
    decreases |d|
  {
    if d == [] then None
    else if d[0].key == key then Some(d[0].value)
    else Get(d[1..], key)
  }

  /** A key is defined exactly when some entry carries it, and then an entry holds its value. */
  lemma {:induction false} GetFindsEntry(d: seq<Entry>, key: string)
    ensures Get(d, key).Some? <==> exists i :: 0 <= i < |d| && d[i].key == key
    ensures Get(d, key).Some? ==> exists i :: 0 <= i < |d| && d[i] == Entry(key, Get(d, key).value)
    decreases |d|
  {
    if d != [] && d[0].key != key {
      GetFindsEntry(d[1..], key);
      if Get(d, key).Some? {
        var i :| 0 <= i < |d| - 1 && d[1..][i] == Entry(key, Get(d, key).value);
        assert d[i + 1] == Entry(key, Get(d, key).value);
      }
    }
  }

  /** With unique keys, the value stored under the key at position `i` is that entry's value. */
  lemma {:induction false} GetAt(d: seq<Entry>, i: nat)
    requires UniqueKeys(d) && i < |d|
    ensures Get(d, d[i].key) == Some(d[i].value)
    decreases |d|
  {
    if i > 0 {
      GetAt(d[1..], i - 1);
    }
  }

  /** JavaScript truthiness of `object[key]`: the key is present and its value is not "". */
  predicate IsTruthy(d: seq<Entry>, key: string) {
    Get(d, key).Some? && Get(d, key).value != ""
  }

  /** `object[key] = value`: overwrite in place when the key is present, append otherwise. */
  function Put(d: seq<Entry>, key: string, value: string): (r: seq<Entry>)
    ensures Get(r, key) == Some(value)
    ensures forall k :: k != key ==> Get(r, k) == Get(d, k)
    decreases |d|
  {
    if d == [] then [Entry(key, value)]
    else if d[0].key == key then [Entry(key, value)] + d[1..]
    else [d[0]] + Put(d[1..], key, value)
  }

  /** Storing keeps every existing key at its position and appends a new key at the end. */
  lemma {:induction false} PutShape(d: seq<Entry>, key: string, value: string)
    ensures |Put(d, key, value)| == if Get(d, key).Some? then |d| else |d| + 1
    ensures forall i :: 0 <= i < |d| ==> Put(d, key, value)[i].key == d[i].key
    ensures Get(d, key).None? ==> Put(d, key, value) == d + [Entry(key, value)]
    decreases |d|
  {
    if d != [] && d[0].key != key {
      PutShape(d[1..], key, value);
      assert Put(d, key, value) == [d[0]] + Put(d[1..], key, value);
    }
  }

  /** Storing keeps the keys of a JavaScript object unique. */
  lemma PutUniqueKeys(d: seq<Entry>, key: string, value: string)
    requires UniqueKeys(d)
    ensures UniqueKeys(Put(d, key, value))
  {
    PutShape(d, key, value);
    GetFindsEntry(d, key);
  }

  /** The set of keys of the object. */
  function KeySet(d: seq<Entry>): (s: set<string>)
    ensures forall k :: k in s <==> Get(d, k).Some?
    ensures |s| <= |d|
    decreases |d|
  {
    GetFindsEntryHead(d);
    if d == [] then {} else {d[0].key} + KeySet(d[1..])
  }

  lemma GetFindsEntryHead(d: seq<Entry>)
    ensures d != [] ==> forall k :: Get(d, k).Some? <==> k == d[0].key || Get(d[1..], k).Some?
  {
  }

  /** The number of entries whose value is not "". */
  function CountNonEmpty(d: seq<Entry>): (n: nat)
    ensures n <= |d|
    decreases |d|
  {
    if d == [] then 0 else (if d[0].value != "" then 1 else 0) + CountNonEmpty(d[1..])
  }

  /** Storing under a key that is not truthy never loses a non-empty value:
      the count of non-empty values grows by one exactly when the new value is non-empty. */
  lemma {:induction false} PutCountNonEmpty(d: seq<Entry>, key: string, value: string)
    requires !IsTruthy(d, key)
    ensures CountNonEmpty(Put(d, key, value)) == CountNonEmpty(d) + (if value != "" then 1 else 0)
    decreases |d|
  {
    if d != [] && d[0].key != key {
      assert Get(d, key) == Get(d[1..], key);
      PutCountNonEmpty(d[1..], key, value);
      assert Put(d, key, value)[1..] == Put(d[1..], key, value);
    }
  }

  /** The dictionary object that the catalogue functions fill and mutate. */
  class Dictionary {
    var entries: seq<Entry>

    ghost predicate Valid()
      reads this
    {
      UniqueKeys(entries)
    }

    /** `{}` */
    constructor ()
      ensures Valid() && entries == []
    {
      entries := [];
    }

    /** `this[key] = value` */
    method Set(key: string, value: string)
      requires Valid()
      modifies this
      ensures Valid() && entries == Put(old(entries), key, value)
    {
      PutUniqueKeys(entries, key, value);
      entries := Put(entries, key, value);
    }
  }
}
