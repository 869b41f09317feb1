/** Filling the string dictionary from text layers (`getStringsFromTextLayers`) and from symbol
    text layers (`addStringsFromSymbolTextLayers`). */
module Catalogue {
  import opened Decimal
  import opened Dict
  import opened Layers
  import opened Keys

  /** The dictionary `getStringsFromTextLayers` has built after the given layers. */
  function Collect(layers: seq<Layer>): (d: seq<Entry>)
    requires AllText(layers)
    decreases |layers|
  {
    if layers == [] then []
    else
      var prev := Collect(layers[..|layers| - 1]);
      var layer := layers[|layers| - 1];
      Put(prev, GeneratedKey(layer, prev), layer.text)
  }

  /** The key each layer was stored under, in layer order. */
  function AssignedKeys(layers: seq<Layer>): (keys: seq<string>)
    requires AllText(layers)
    ensures |keys| == |layers|
    decreases |layers|
  {
    if layers == [] then []
    else
      var prev := Collect(layers[..|layers| - 1]);
      AssignedKeys(layers[..|layers| - 1]) + [GeneratedKey(layers[|layers| - 1], prev)]
  }

  /** The number of layers whose text is not "". */
  function NonEmptyTexts(layers: seq<Layer>): nat
    requires AllText(layers)
    decreases |layers|
  {
    if layers == [] then 0
    else NonEmptyTexts(layers[..|layers| - 1]) + (if layers[|layers| - 1].text != "" then 1 else 0)
  }

  /** One step of the loop never overwrites an entry holding a non-empty text. */
  lemma StepKeepsNonEmpty(d: seq<Entry>, layer: Layer, k: string)
    requires layer.Text? && IsTruthy(d, k)
    ensures k != GeneratedKey(layer, d)
    ensures Get(Put(d, GeneratedKey(layer, d), layer.text), k) == Get(d, k)
  {
    GeneratedKeyIsFirstFree(layer, d);
  }

  /** The dictionary being built keeps unique keys. */
  lemma {:induction false} CollectUniqueKeys(layers: seq<Layer>)
    requires AllText(layers)
    ensures UniqueKeys(Collect(layers))
    decreases |layers|
  {
    if layers != [] {
      var prev := Collect(layers[..|layers| - 1]);
      CollectUniqueKeys(layers[..|layers| - 1]);
      PutUniqueKeys(prev, GeneratedKey(layers[|layers| - 1], prev), layers[|layers| - 1].text);
    }
  }

  /** An entry holding a non-empty text is never overwritten by later layers. */
  lemma {:induction false} CollectNeverOverwrites(layers: seq<Layer>, i: nat, k: string)
    requires AllText(layers) && i <= |layers|
    requires IsTruthy(Collect(layers[..i]), k)
    ensures Get(Collect(layers), k) == Get(Collect(layers[..i]), k)
    decreases |layers|
  {
    if i < |layers| {
      var prefix := layers[..|layers| - 1];
      assert prefix[..i] == layers[..i];
      CollectNeverOverwrites(prefix, i, k);
      StepKeepsNonEmpty(Collect(prefix), layers[|layers| - 1], k);
    } else {
      assert layers[..i] == layers;
    }
  }

  /** Every layer with a non-empty text ends up in the dictionary, under its own key, mapping to
      its text; the keys of two such layers differ. */
  lemma {:induction false} CollectKeepsEveryText(layers: seq<Layer>)
    requires AllText(layers)
    ensures forall i :: 0 <= i < |layers| && layers[i].text != "" ==>
              Get(Collect(layers), AssignedKeys(layers)[i]) == Some(layers[i].text)
    ensures forall i, j :: 0 <= i < j < |layers| && layers[i].text != "" && layers[j].text != "" ==>
              AssignedKeys(layers)[i] != AssignedKeys(layers)[j]
    decreases |layers|
  {
    if layers != [] {
      var n := |layers| - 1;
      var prefix := layers[..n];
      var prev := Collect(prefix);
      var last := layers[n];
      var keys := AssignedKeys(layers);
      var earlier := AssignedKeys(prefix);
      CollectKeepsEveryText(prefix);
      assert keys == earlier + [GeneratedKey(last, prev)];
      assert Collect(layers) == Put(prev, keys[n], last.text);
      forall i | 0 <= i < n && layers[i].text != ""
        ensures Get(Collect(layers), keys[i]) == Some(layers[i].text)
        ensures keys[i] != keys[n]
      {
        assert prefix[i] == layers[i] && keys[i] == earlier[i];
        StepKeepsNonEmpty(prev, last, keys[i]);
      }
      forall i, j | 0 <= i < j < n && layers[i].text != "" && layers[j].text != ""
        ensures keys[i] != keys[j]
      {
        assert prefix[i] == layers[i] && prefix[j] == layers[j];
        assert keys[i] == earlier[i] && keys[j] == earlier[j];
      }
    }
  }

  /** The dictionary has at most one entry per layer, and its non-empty values are exactly as many
      as the layers with non-empty text. */
  lemma {:induction false} CollectSize(layers: seq<Layer>)
    requires AllText(layers)
    ensures |Collect(layers)| <= |layers|
    ensures CountNonEmpty(Collect(layers)) == NonEmptyTexts(layers)
    ensures NonEmptyTexts(layers) <= |Collect(layers)|
    ensures Collect(layers) == [] <==> layers == []
    decreases |layers|
  {
    if layers != [] {
      var prefix := layers[..|layers| - 1];
      var last := layers[|layers| - 1];
      CollectSize(prefix);
      GeneratedKeyIsFirstFree(last, Collect(prefix));
      PutShape(Collect(prefix), GeneratedKey(last, Collect(prefix)), last.text);
      PutCountNonEmpty(Collect(prefix), GeneratedKey(last, Collect(prefix)), last.text);
    }
  }

  /** A dictionary holding, in order, the candidates 0 .. n-1 of one base with non-empty values. */
  ghost predicate HoldsCandidates(d: seq<Entry>, base: string, n: nat) {
    |d| == n && forall i :: 0 <= i < n ==> d[i].key == Candidate(base, i) && d[i].value != ""
  }

  /** In such a dictionary the first free candidate is candidate n. */
  lemma NextCandidateIsFree(d: seq<Entry>, base: string, n: nat)
    requires HoldsCandidates(d, base, n)
    ensures FreeIndex(d, base) == n
    ensures Get(d, Candidate(base, n)).None?
  {
    forall i, j | 0 <= i < j < n ensures d[i].key != d[j].key {
      CandidateInjective(base, i, j);
    }
    assert UniqueKeys(d);
    forall m: nat | m < n ensures IsTruthy(d, Candidate(base, m)) {
      GetAt(d, m);
    }
    forall i | 0 <= i < n ensures d[i].key != Candidate(base, n) {
      CandidateInjective(base, i, n);
    }
    GetFindsEntry(d, Candidate(base, n));
    FreeIndexIsFirstFree(d, base);
  }

  /** The dictionary built from layers that all share `base`: candidate i holds the i-th text. */
  function SuffixedEntries(layers: seq<Layer>, base: string): (d: seq<Entry>)
    requires AllText(layers)
    ensures |d| == |layers|
    ensures forall i :: 0 <= i < |layers| ==> d[i] == Entry(Candidate(base, i), layers[i].text)
    decreases |layers|
  {
    if layers == [] then []
    else SuffixedEntries(layers[..|layers| - 1], base) + [Entry(Candidate(base, |layers| - 1), layers[|layers| - 1].text)]
  }

  /** The keys those layers were stored under: candidates 0, 1, 2, ... */
  function SuffixedKeys(n: nat, base: string): (keys: seq<string>)
    ensures |keys| == n
    ensures forall i :: 0 <= i < n ==> keys[i] == Candidate(base, i)
    decreases n
  {
    if n == 0 then [] else SuffixedKeys(n - 1, base) + [Candidate(base, n - 1)]
  }

  /** On such a dictionary a layer with that base is given candidate n, which is absent. */
  lemma SharedBaseKey(prev: seq<Entry>, last: Layer, base: string, n: nat)
    requires last.Text? && BaseKey(last) == base && HoldsCandidates(prev, base, n)
    ensures GeneratedKey(last, prev) == Candidate(base, n)
    ensures Get(prev, Candidate(base, n)).None?
  {
    NextCandidateIsFree(prev, base, n);
  }

  /** One loop step on such a dictionary stores the layer under candidate n, at the end. */
  lemma SharedBaseStep(layers: seq<Layer>, base: string)
    requires AllText(layers) && layers != []
    requires BaseKey(layers[|layers| - 1]) == base
    requires HoldsCandidates(Collect(layers[..|layers| - 1]), base, |layers| - 1)
    ensures Collect(layers) == Collect(layers[..|layers| - 1]) + [Entry(Candidate(base, |layers| - 1), layers[|layers| - 1].text)]
    ensures AssignedKeys(layers) == AssignedKeys(layers[..|layers| - 1]) + [Candidate(base, |layers| - 1)]
  {
    var n := |layers| - 1;
    var prefix := layers[..n];
    var last := layers[n];
    var prev := Collect(prefix);
    SharedBaseKey(prev, last, base, n);
    PutShape(prev, Candidate(base, n), last.text);
  }

  /** If the layers before the last were stored under candidates 0 .. n-1, the last one is stored
      under candidate n. */
  lemma SharedBaseExtend(layers: seq<Layer>, base: string)
    requires AllText(layers) && layers != []
    requires BaseKey(layers[|layers| - 1]) == base
    requires AssignedKeys(layers[..|layers| - 1]) == SuffixedKeys(|layers| - 1, base)
    requires Collect(layers[..|layers| - 1]) == SuffixedEntries(layers[..|layers| - 1], base)
    requires forall i :: 0 <= i < |layers| - 1 ==> layers[i].text != ""
    ensures AssignedKeys(layers) == SuffixedKeys(|layers|, base)
    ensures Collect(layers) == SuffixedEntries(layers, base)
  {
    var prefix := layers[..|layers| - 1];
    SuffixedEntriesHoldCandidates(prefix, base);
    SharedBaseStep(layers, base);
  }

  lemma SuffixedEntriesHoldCandidates(layers: seq<Layer>, base: string)
    requires AllText(layers)
    requires forall i :: 0 <= i < |layers| ==> layers[i].text != ""
    ensures HoldsCandidates(SuffixedEntries(layers, base), base, |layers|)
  {
  }

  /** Layers that share one container name and index, all with non-empty text, are stored under
      the base key, then the base with suffixes -1, -2, ... in traversal order. */
  lemma {:induction false} SharedBaseGetsIncreasingSuffixes(layers: seq<Layer>, base: string)
    requires AllText(layers)
    requires forall i :: 0 <= i < |layers| ==> BaseKey(layers[i]) == base && layers[i].text != ""
    ensures AssignedKeys(layers) == SuffixedKeys(|layers|, base)
    ensures Collect(layers) == SuffixedEntries(layers, base)
    decreases |layers|
  {
    if layers != [] {
      var n := |layers| - 1;
      var prefix := layers[..n];
      SharedBaseGetsIncreasingSuffixes(prefix, base);
      SharedBaseExtend(layers, base);
    }
  }

  /** One more turn of the loop stores one more layer. */
  lemma CollectSnoc(layers: seq<Layer>, i: nat)
    requires AllText(layers) && i < |layers|
    ensures Collect(layers[..i + 1])
              == Put(Collect(layers[..i]), GeneratedKey(layers[i], Collect(layers[..i])), layers[i].text)
  {
    assert layers[..i + 1][..i] == layers[..i];
  }

  /** Layer i was stored under the key generated from the dictionary the first i layers built. */
  lemma {:induction false} AssignedKeyAt(layers: seq<Layer>, i: nat)
    requires AllText(layers) && i < |layers|
    ensures AssignedKeys(layers)[i] == GeneratedKey(layers[i], Collect(layers[..i]))
    ensures AssignedKeys(layers)[i] == Candidate(BaseKey(layers[i]), FreeIndex(Collect(layers[..i]), BaseKey(layers[i])))
    decreases |layers|
  {
    var n := |layers| - 1;
    if i < n {
      var prefix := layers[..n];
      AssignedKeyAt(prefix, i);
      assert prefix[..i] == layers[..i];
    }
  }

  /** A layer with a non-empty text leaves its own key truthy to the end of the loop. */
  lemma StoredKeyStaysTruthy(layers: seq<Layer>, i: nat)
    requires AllText(layers) && i < |layers| && layers[i].text != ""
    ensures IsTruthy(Collect(layers), GeneratedKey(layers[i], Collect(layers[..i])))
  {
    CollectSnoc(layers, i);
    CollectNeverOverwrites(layers, i + 1, GeneratedKey(layers[i], Collect(layers[..i])));
  }

  /** The candidates the search skipped for layer i were truthy, and stay truthy to the end. */
  lemma SkippedCandidateStaysTruthy(layers: seq<Layer>, i: nat, m: nat)
    requires AllText(layers) && i < |layers|
    requires m < FreeIndex(Collect(layers[..i]), BaseKey(layers[i]))
    ensures IsTruthy(Collect(layers), Candidate(BaseKey(layers[i]), m))
  {
    FreeIndexIsFirstFree(Collect(layers[..i]), BaseKey(layers[i]));
    CollectNeverOverwrites(layers, i, Candidate(BaseKey(layers[i]), m));
  }

  /** After a layer with a non-empty text is stored, the candidates up to its own are all truthy,
      and they stay truthy for the rest of the loop. */
  lemma CandidatesStayTruthy(layers: seq<Layer>, i: nat)
    requires AllText(layers) && i < |layers| && layers[i].text != ""
    ensures forall m: nat :: m <= FreeIndex(Collect(layers[..i]), BaseKey(layers[i])) ==>
              IsTruthy(Collect(layers), Candidate(BaseKey(layers[i]), m))
  {
    var n := FreeIndex(Collect(layers[..i]), BaseKey(layers[i]));
    forall m: nat | m <= n ensures IsTruthy(Collect(layers), Candidate(BaseKey(layers[i]), m)) {
      if m < n {
        SkippedCandidateStaysTruthy(layers, i, m);
      } else {
        StoredKeyStaysTruthy(layers, i);
      }
    }
  }

  /** When candidates 0 .. n are all truthy, the search goes past n. */
  lemma FreeIndexBeyond(d: seq<Entry>, base: string, n: nat)
    requires forall m: nat :: m <= n ==> IsTruthy(d, Candidate(base, m))
    ensures n < FreeIndex(d, base)
  {
    FreeIndexIsFirstFree(d, base);
  }

  /** Of two layers with the same base key, the later one gets a larger suffix number than the
      earlier one, provided the earlier text is not "". */
  lemma SameBaseSuffixesIncrease(layers: seq<Layer>, i: nat, j: nat)
    requires AllText(layers) && i < j < |layers|
    requires BaseKey(layers[i]) == BaseKey(layers[j]) && layers[i].text != ""
    ensures FreeIndex(Collect(layers[..i]), BaseKey(layers[i])) < FreeIndex(Collect(layers[..j]), BaseKey(layers[j]))
  {
    var b := BaseKey(layers[i]);
    var n := FreeIndex(Collect(layers[..i]), b);
    var dj := Collect(layers[..j]);
    assert forall m: nat :: m <= n ==> IsTruthy(dj, Candidate(b, m)) by {
      var before := layers[..j];
      assert before[..i] == layers[..i] && before[i] == layers[i];
      CandidatesStayTruthy(before, i);
    }
    FreeIndexBeyond(dj, b, n);
  }

  /** In any traversal, two layers with the same base key, the earlier with a non-empty text, are
      stored under candidates n1 < n2 of that base. The numbers need not be consecutive, nor start
      at 0: keys of other bases may already hold the candidates in between. */
  lemma SameBaseKeysIncrease(layers: seq<Layer>, i: nat, j: nat)
    requires AllText(layers) && i < j < |layers|
    requires BaseKey(layers[i]) == BaseKey(layers[j]) && layers[i].text != ""
    ensures AssignedKeys(layers)[i] == Candidate(BaseKey(layers[i]), FreeIndex(Collect(layers[..i]), BaseKey(layers[i])))
    ensures AssignedKeys(layers)[j] == Candidate(BaseKey(layers[j]), FreeIndex(Collect(layers[..j]), BaseKey(layers[j])))
    ensures FreeIndex(Collect(layers[..i]), BaseKey(layers[i])) < FreeIndex(Collect(layers[..j]), BaseKey(layers[j]))
  {
    AssignedKeyAt(layers, i);
    AssignedKeyAt(layers, j);
    SameBaseSuffixesIncrease(layers, i, j);
  }

  /** Storing "" under the first free candidate leaves that candidate the first free one. */
  lemma FreeIndexAfterEmptyStore(d: seq<Entry>, base: string)
    ensures FreeIndex(Put(d, Candidate(base, FreeIndex(d, base)), ""), base) == FreeIndex(d, base)
  {
    var n := FreeIndex(d, base);
    var after := Put(d, Candidate(base, n), "");
    FreeIndexIsFirstFree(d, base);
    FreeIndexIsFirstFree(after, base);
    forall m: nat | m < n ensures IsTruthy(after, Candidate(base, m)) {
      CandidateInjective(base, m, n);
    }
    assert !IsTruthy(after, Candidate(base, n));
  }

  /** A layer whose text is "" leaves its key free: the next layer, if it has the same base key,
      is stored under the same key and overwrites it. */
  lemma EmptyTextKeyReused(layers: seq<Layer>, i: nat)
    requires AllText(layers) && i + 1 < |layers|
    requires layers[i].text == "" && BaseKey(layers[i]) == BaseKey(layers[i + 1])
    ensures AssignedKeys(layers)[i + 1] == AssignedKeys(layers)[i]
  {
    AssignedKeyAt(layers, i);
    AssignedKeyAt(layers, i + 1);
    CollectSnoc(layers, i);
    FreeIndexAfterEmptyStore(Collect(layers[..i]), BaseKey(layers[i]));
  }

  /** A layer whose base key no entry carries is stored under that base key, at the end. */
  lemma AbsentBaseIsKept(d: seq<Entry>, layer: Layer)
    requires layer.Text?
    requires forall i :: 0 <= i < |d| ==> d[i].key != BaseKey(layer)
    ensures GeneratedKey(layer, d) == BaseKey(layer)
    ensures Put(d, BaseKey(layer), layer.text) == d + [Entry(BaseKey(layer), layer.text)]
  {
    GetFindsEntry(d, BaseKey(layer));
    FreeIndexIsFirstFree(d, BaseKey(layer));
    assert Candidate(BaseKey(layer), 0) == BaseKey(layer);
    PutShape(d, BaseKey(layer), layer.text);
  }

  /** With pairwise distinct base keys the dictionary holds one entry per layer, in layer order,
      each under the layer's base key, whatever the texts. */
  lemma {:induction false} DistinctBasesCollect(layers: seq<Layer>)
    requires AllText(layers)
    requires forall i, j :: 0 <= i < j < |layers| ==> BaseKey(layers[i]) != BaseKey(layers[j])
    ensures |Collect(layers)| == |layers|
    ensures forall i :: 0 <= i < |layers| ==>
              Collect(layers)[i] == Entry(BaseKey(layers[i]), layers[i].text)
    decreases |layers|
  {
    if layers != [] {
      var n := |layers| - 1;
      var prefix := layers[..n];
      var prev := Collect(prefix);
      var last := layers[n];
      DistinctBasesCollect(prefix);
      forall i | 0 <= i < |prev| ensures prev[i].key != BaseKey(last) {
        assert prefix[i] == layers[i];
      }
      AbsentBaseIsKept(prev, last);
      assert Collect(layers) == prev + [Entry(BaseKey(last), last.text)];
      forall i | 0 <= i < n ensures Collect(layers)[i] == Entry(BaseKey(layers[i]), layers[i].text) {
        assert prefix[i] == layers[i];
      }
    }
  }

  /** Layers with pairwise distinct base keys keep their base keys: no suffix is added. */
  lemma DistinctBasesKeepBases(layers: seq<Layer>)
    requires AllText(layers)
    requires forall i, j :: 0 <= i < j < |layers| ==> BaseKey(layers[i]) != BaseKey(layers[j])
    ensures forall i :: 0 <= i < |layers| ==> AssignedKeys(layers)[i] == BaseKey(layers[i])
  {
    forall i | 0 <= i < |layers| ensures AssignedKeys(layers)[i] == BaseKey(layers[i]) {
      var prefix := layers[..i];
      var prev := Collect(prefix);
      DistinctBasesCollect(prefix);
      forall k | 0 <= k < |prev| ensures prev[k].key != BaseKey(layers[i]) {
        assert prefix[k] == layers[k];
      }
      AbsentBaseIsKept(prev, layers[i]);
      AssignedKeyAt(layers, i);
    }
  }

  /** Text layers with pairwise distinct (container name, index) pairs are stored under their base
      keys, which are pairwise distinct. */
  lemma DistinctPairsKeepBases(layers: seq<Layer>)
    requires AllText(layers)
    requires forall i, j :: 0 <= i < j < |layers| ==>
               (layers[i].containerName, layers[i].index) != (layers[j].containerName, layers[j].index)
    ensures forall i, j :: 0 <= i < j < |layers| ==> AssignedKeys(layers)[i] != AssignedKeys(layers)[j]
    ensures forall i :: 0 <= i < |layers| ==> AssignedKeys(layers)[i] == BaseKey(layers[i])
  {
    forall i, j | 0 <= i < j < |layers| ensures BaseKey(layers[i]) != BaseKey(layers[j]) {
      if BaseKey(layers[i]) == BaseKey(layers[j]) {
        BaseKeyInjective(layers[i], layers[j]);
      }
    }
    DistinctBasesKeepBases(layers);
  }

  /** `getStringsFromTextLayers(textLayers)`: a fresh dictionary filled layer by layer. */
  method GetStringsFromTextLayers(textLayers: seq<Layer>) returns (strings: Dictionary)
    requires AllText(textLayers)
    ensures fresh(strings) && strings.Valid()
    ensures strings.entries == Collect(textLayers)
  {
    strings := new Dictionary();
    var i := 0;
    while i < |textLayers|
      invariant 0 <= i <= |textLayers|
      invariant strings.Valid() && strings.entries == Collect(textLayers[..i])
    {
      var layer := textLayers[i];
      var key := GenerateKeyForLayer(layer, strings);
      CollectSnoc(textLayers, i);
      strings.Set(key, layer.text);
      i := i + 1;
    }
    assert textLayers[..i] == textLayers;
  }

  /** The dictionary after `strings[layer.objectID()] = layer.stringValue()` for each layer in order. */
  function PutAll(d: seq<Entry>, layers: seq<Layer>): seq<Entry>
    requires AllText(layers)
    decreases |layers|
  {
    if layers == [] then d
    else
      var last := layers[|layers| - 1];
      Put(PutAll(d, layers[..|layers| - 1]), last.id, last.text)
  }

  /** Keys that no layer carries keep their value. */
  lemma {:induction false} PutAllOtherKeys(d: seq<Entry>, layers: seq<Layer>, k: string)
    requires AllText(layers)
    requires forall i :: 0 <= i < |layers| ==> layers[i].id != k
    ensures Get(PutAll(d, layers), k) == Get(d, k)
    decreases |layers|
  {
    if layers != [] {
      PutAllOtherKeys(d, layers[..|layers| - 1], k);
    }
  }

  /** An identifier ends up mapping to the text of the last layer that carries it. */
  lemma {:induction false} PutAllLastWins(d: seq<Entry>, layers: seq<Layer>, i: nat)
    requires AllText(layers) && i < |layers|
    requires forall j :: i < j < |layers| ==> layers[j].id != layers[i].id
    ensures Get(PutAll(d, layers), layers[i].id) == Some(layers[i].text)
    decreases |layers|
  {
    var n := |layers| - 1;
    var last := layers[n];
    if i < n {
      var prefix := layers[..n];
      assert prefix[i] == layers[i];
      PutAllLastWins(d, prefix, i);
      assert last.id != layers[i].id;
      assert PutAll(d, layers) == Put(PutAll(d, prefix), last.id, last.text);
    }
  }

  /** Existing keys keep their position, new keys come after them, and keys stay unique. */
  lemma {:induction false} PutAllKeepsOrder(d: seq<Entry>, layers: seq<Layer>)
    requires AllText(layers)
    ensures |d| <= |PutAll(d, layers)|
    ensures forall i :: 0 <= i < |d| ==> PutAll(d, layers)[i].key == d[i].key
    ensures UniqueKeys(d) ==> UniqueKeys(PutAll(d, layers))
    ensures PutAll(d, layers) == [] <==> d == [] && layers == []
    decreases |layers|
  {
    if layers != [] {
      var last := layers[|layers| - 1];
      var prev := PutAll(d, layers[..|layers| - 1]);
      PutAllKeepsOrder(d, layers[..|layers| - 1]);
      PutShape(prev, last.id, last.text);
      if UniqueKeys(d) {
        PutUniqueKeys(prev, last.id, last.text);
      }
    }
  }

  /** `addStringsFromSymbolTextLayers(strings, layers)`: mutates the given dictionary. */
  method AddStringsFromSymbolTextLayers(strings: Dictionary, layers: seq<Layer>)
    requires AllText(layers) && strings.Valid()
    modifies strings
    ensures strings.Valid()
    ensures strings.entries == PutAll(old(strings.entries), layers)
  {
    ghost var start := strings.entries;
    var i := 0;
    while i < |layers|
      invariant 0 <= i <= |layers|
      invariant strings.Valid() && strings.entries == PutAll(start, layers[..i])
    {
      var layer := layers[i];
      strings.Set(layer.id, layer.text);
      assert layers[..i + 1][..i] == layers[..i];
      i := i + 1;
    }
    assert layers[..i] == layers;
  }
}
