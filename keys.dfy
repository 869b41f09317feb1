/** `generateKeyForLayer`: a key for a text layer that is not yet taken in the dictionary. */
module Keys {
  import opened Decimal
  import opened Dict
  import opened Layers

  /** `layer.container.name + '-' + layer.index` */
  function BaseKey(layer: Layer): string
    requires layer.Text?
  {
    layer.containerName + "-" + NatToString(layer.index)
  }

  /** The number of decimal digits at the end of a string. */
  function DigitTail(s: string): (n: nat)
    ensures n <= |s|
    decreases |s|
  {
    if s == [] || !('0' <= s[|s| - 1] <= '9') then 0 else 1 + DigitTail(s[..|s| - 1])
  }

  /** A hyphen followed by digits ends in exactly those digits. */
  lemma {:induction false} DigitTailAfterHyphen(c: string, d: string)
    requires IsDigits(d)
    ensures DigitTail(c + "-" + d) == |d|
    decreases |d|
  {
    var s := c + "-" + d;
    if d != [] {
      assert s[..|s| - 1] == c + "-" + d[..|d| - 1];
      DigitTailAfterHyphen(c, d[..|d| - 1]);
    }
  }

  /** Decimal digits contain no hyphen, so the last hyphen of a base key separates the container
      name from the index: distinct (container name, index) pairs have distinct base keys. */
  lemma BaseKeyInjective(a: Layer, b: Layer)
    requires a.Text? && b.Text? && BaseKey(a) == BaseKey(b)
    ensures a.containerName == b.containerName && a.index == b.index
  {
    var s := BaseKey(a);
    var da, db := NatToString(a.index), NatToString(b.index);
    DigitTailAfterHyphen(a.containerName, da);
    DigitTailAfterHyphen(b.containerName, db);
    assert da == s[|s| - |da|..] == db;
    assert a.containerName == s[..|s| - |da| - 1] == b.containerName;
    NatToStringInjective(a.index, b.index);
  }

  /** The n-th key the search tries: the base itself, then `base + '-' + n` for n = 1, 2, ... */
  function Candidate(base: string, n: nat): string {
    if n == 0 then base else base + "-" + NatToString(n)
  }

  /** The suffix is added to the base, never to an earlier candidate, so candidates never repeat. */
  lemma CandidateInjective(base: string, m: nat, n: nat)
    ensures Candidate(base, m) == Candidate(base, n) ==> m == n
  {
    if Candidate(base, m) == Candidate(base, n) && m != 0 && n != 0 {
      assert NatToString(m) == Candidate(base, m)[|base| + 1..];
      assert NatToString(n) == Candidate(base, n)[|base| + 1..];
      NatToStringInjective(m, n);
    }
  }

  /** The first n + 1 candidates, as a set. */
  function CandidatesUpTo(base: string, n: nat): set<string>
    decreases n
  {
    if n == 0 then {base} else CandidatesUpTo(base, n - 1) + {Candidate(base, n)}
  }

  lemma {:induction false} LaterCandidateIsNew(base: string, n: nat, k: nat)
    requires k < n
    ensures Candidate(base, n) !in CandidatesUpTo(base, k)
    decreases k
  {
    CandidateInjective(base, k, n);
    if k > 0 {
      LaterCandidateIsNew(base, n, k - 1);
    }
  }

  lemma {:induction false} CandidatesUpToSize(base: string, n: nat)
    ensures |CandidatesUpTo(base, n)| == n + 1
    decreases n
  {
    if n > 0 {
      CandidatesUpToSize(base, n - 1);
      LaterCandidateIsNew(base, n, n - 1);
    }
  }

  lemma {:induction false} TruthyCandidatesAreKeys(d: seq<Entry>, base: string, n: nat)
    requires forall m: nat :: m <= n ==> IsTruthy(d, Candidate(base, m))
    ensures CandidatesUpTo(base, n) <= KeySet(d)
    decreases n
  {
    assert IsTruthy(d, Candidate(base, n));
    if n > 0 {
      TruthyCandidatesAreKeys(d, base, n - 1);
    }
  }

  /** A dictionary of size |d| holds at most |d| keys, so one of the first |d| + 1 candidates
      is not truthy in it. */
  lemma FreeCandidateExists(d: seq<Entry>, base: string)
    ensures exists n: nat :: n <= |d| && !IsTruthy(d, Candidate(base, n))
  {
    if forall n: nat :: n <= |d| ==> IsTruthy(d, Candidate(base, n)) {
      TruthyCandidatesAreKeys(d, base, |d|);
      CandidatesUpToSize(base, |d|);
      SubsetSize(CandidatesUpTo(base, |d|), KeySet(d));
      assert false;
    }
  }

  lemma SubsetSize(a: set<string>, b: set<string>)
    requires a <= b
    ensures |a| <= |b|
  {
    assert b == a + (b - a);
  }

  /** The search loop of `generateKeyForLayer`, from candidate `n` on. The first test is a
      bound only: the lemma below shows the search never gets past |d|. */
  function FirstFreeFrom(d: seq<Entry>, base: string, n: nat): nat
    decreases |d| + 1 - n
  {
    if n > |d| || !IsTruthy(d, Candidate(base, n)) then n else FirstFreeFrom(d, base, n + 1)
  }

  lemma {:induction false} FirstFreeFromFinds(d: seq<Entry>, base: string, n: nat, w: nat)
    requires n <= w <= |d| && !IsTruthy(d, Candidate(base, w))
    ensures n <= FirstFreeFrom(d, base, n) <= w
    ensures !IsTruthy(d, Candidate(base, FirstFreeFrom(d, base, n)))
    ensures forall m: nat :: n <= m < FirstFreeFrom(d, base, n) ==> IsTruthy(d, Candidate(base, m))
    decreases w - n
  {
    if IsTruthy(d, Candidate(base, n)) {
      FirstFreeFromFinds(d, base, n + 1, w);
    }
  }

  /** The suffix number `generateKeyForLayer` settles on. */
  function FreeIndex(d: seq<Entry>, base: string): nat {
    FirstFreeFrom(d, base, 0)
  }

  /** The search settles on the smallest n whose candidate is absent from the dictionary or maps
      to "", and that n is at most |d|. */
  lemma FreeIndexIsFirstFree(d: seq<Entry>, base: string)
    ensures FreeIndex(d, base) <= |d|
    ensures !IsTruthy(d, Candidate(base, FreeIndex(d, base)))
    ensures forall m: nat :: m < FreeIndex(d, base) ==> IsTruthy(d, Candidate(base, m))
  {
    FreeCandidateExists(d, base);
    var w: nat :| w <= |d| && !IsTruthy(d, Candidate(base, w));
    FirstFreeFromFinds(d, base, 0, w);
  }

  /** The key `generateKeyForLayer` returns for `layer` against dictionary `d`. */
  function GeneratedKey(layer: Layer, d: seq<Entry>): string
    requires layer.Text?
  {
    Candidate(BaseKey(layer), FreeIndex(d, BaseKey(layer)))
  }

  /** The key is the base when that is free, and otherwise the base plus `-n` for the smallest
      free n >= 1; it is never truthy in the dictionary. */
  lemma GeneratedKeyIsFirstFree(layer: Layer, d: seq<Entry>)
    requires layer.Text?
    ensures !IsTruthy(d, GeneratedKey(layer, d))
    ensures !IsTruthy(d, BaseKey(layer)) ==> GeneratedKey(layer, d) == BaseKey(layer)
    ensures IsTruthy(d, BaseKey(layer)) ==>
              exists n: nat :: 1 <= n <= |d|
                && GeneratedKey(layer, d) == BaseKey(layer) + "-" + NatToString(n)
                && forall m: nat :: 1 <= m < n ==> IsTruthy(d, BaseKey(layer) + "-" + NatToString(m))
  {
    var base := BaseKey(layer);
    var n := FreeIndex(d, base);
    FreeIndexIsFirstFree(d, base);
    if IsTruthy(d, base) {
      assert n != 0;
      forall m: nat | 1 <= m < n
        ensures IsTruthy(d, base + "-" + NatToString(m))
      {
        assert Candidate(base, m) == base + "-" + NatToString(m);
      }
    } else {
      assert IsTruthy(d, Candidate(base, 0)) == IsTruthy(d, base);
    }
  }

  /** `generateKeyForLayer(layer, stringsDict)`. It only reads the dictionary. */
  method GenerateKeyForLayer(layer: Layer, stringsDict: Dictionary) returns (keyWithIndex: string)
    requires layer.Text?
    ensures keyWithIndex == GeneratedKey(layer, stringsDict.entries)
  {
    var key := layer.containerName + "-" + NatToString(layer.index);
    keyWithIndex := key;
    var index := 1;
    ghost var free := FreeIndex(stringsDict.entries, key);
    FreeIndexIsFirstFree(stringsDict.entries, key);
    while IsTruthy(stringsDict.entries, keyWithIndex)
      invariant 1 <= index <= free + 1
      invariant keyWithIndex == Candidate(key, index - 1)
      decreases free + 1 - index
    {
      keyWithIndex := key + "-" + NatToString(index);
      index := index + 1;
    }
  }
}
