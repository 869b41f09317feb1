/** `translateTextLayer` and `translateTextLayers`: writing translations back onto text layers by
    matching each layer's text against the source strings of a translation set. */
module Translation {
  import opened Dict

  /** One translation unit as parsed from the vendor's JSON; either field may be missing. */
  datatype Unit = Unit(source: Option<string>, target: Option<string>)

  /** The units stored under one key: the plural variants of one string. */
  datatype UnitGroup = UnitGroup(key: string, variants: seq<Unit>)

  /** JavaScript truthiness of a string field that may be missing. */
  predicate Truthy(field: Option<string>) {
    field.Some? && field.value != ""
  }

  /** The test in `translateTextLayer`: a non-empty source equal to the layer text, and a
      non-empty target. */
  predicate Qualifies(u: Unit, text: string) {
    Truthy(u.source) && u.source.value == text && Truthy(u.target)
  }

  /** The target of the first qualifying variant of one group. */
  function FirstInGroup(variants: seq<Unit>, text: string): (r: Option<string>)
    decreases |variants|
  {
    if variants == [] then None
    else if Qualifies(variants[0], text) then Some(variants[0].target.value)
    else FirstInGroup(variants[1..], text)
  }

  /** The target of the first qualifying unit, groups in order and variants in order. */
  function FirstTarget(strings: seq<UnitGroup>, text: string): (r: Option<string>)
    decreases |strings|
  {
    if strings == [] then None
    else
      match FirstInGroup(strings[0].variants, text)
      case Some(t) => Some(t)
      case None => FirstTarget(strings[1..], text)
  }

  /** The layer text after `translateTextLayer`. */
  function TranslatedText(strings: seq<UnitGroup>, text: string): string {
    match FirstTarget(strings, text)
    case Some(t) => t
    case None => text
  }

  /** Reference order: every unit of the set, groups in order and variants in order. */
  function Flatten(strings: seq<UnitGroup>): seq<Unit>
    decreases |strings|
  {
    if strings == [] then [] else strings[0].variants + Flatten(strings[1..])
  }

  /** No unit before position `i` qualifies. */
  ghost predicate FirstAt(units: seq<Unit>, text: string, i: nat) {
    forall j :: 0 <= j < i && j < |units| ==> !Qualifies(units[j], text)
  }

  /** First match wins over a flat list of units: the result is the target of the first
      qualifying unit, and there is none exactly when no unit qualifies. */
  lemma {:induction false} FirstInGroupIsFirstMatch(units: seq<Unit>, text: string)
    ensures FirstInGroup(units, text).None? <==> forall i :: 0 <= i < |units| ==> !Qualifies(units[i], text)
    ensures forall i :: 0 <= i < |units| && Qualifies(units[i], text) && FirstAt(units, text, i) ==>
              FirstInGroup(units, text) == Some(units[i].target.value)
    decreases |units|
  {
    if units != [] {
      FirstInGroupIsFirstMatch(units[1..], text);
    }
  }

  /** Scanning group by group gives the same answer as scanning the flattened list. */
  lemma {:induction false} FirstTargetIsFlatScan(strings: seq<UnitGroup>, text: string)
    ensures FirstTarget(strings, text) == FirstInGroup(Flatten(strings), text)
    decreases |strings|
  {
    if strings != [] {
      FirstTargetIsFlatScan(strings[1..], text);
      FirstInGroupAppend(strings[0].variants, Flatten(strings[1..]), text);
    }
  }

  lemma {:induction false} FirstInGroupAppend(a: seq<Unit>, b: seq<Unit>, text: string)
    ensures FirstInGroup(a + b, text) ==
              match FirstInGroup(a, text) case Some(t) => Some(t) case None => FirstInGroup(b, text)
    decreases |a|
  {
    if a == [] {
      assert a + b == b;
    } else {
      assert (a + b)[0] == a[0];
      assert (a + b)[1..] == a[1..] + b;
      FirstInGroupAppend(a[1..], b, text);
    }
  }

  /** A layer's text changes only to the non-empty target of a unit whose source is its text;
      with no such unit it is left as it was. */
  lemma TranslatedTextCases(strings: seq<UnitGroup>, text: string)
    ensures TranslatedText(strings, text) == text ||
              exists u :: u in Flatten(strings) && Qualifies(u, text) && TranslatedText(strings, text) == u.target.value
    ensures (forall u :: u in Flatten(strings) ==> !Qualifies(u, text)) ==> TranslatedText(strings, text) == text
  {
    FirstTargetIsFlatScan(strings, text);
    var units := Flatten(strings);
    FirstInGroupIsFirstMatch(units, text);
    if FirstTarget(strings, text).Some? {
      var i :| 0 <= i < |units| && Qualifies(units[i], text);
      var k := FirstQualifying(units, text, i);
      assert units[k] in units;
    }
  }

  /** The position of the first qualifying unit, given that some unit at or before `i` qualifies. */
  lemma {:induction false} FirstQualifying(units: seq<Unit>, text: string, i: nat) returns (k: nat)
    requires i < |units| && Qualifies(units[i], text)
    ensures k <= i && Qualifies(units[k], text) && FirstAt(units, text, k)
    decreases i
  {
    if exists j :: 0 <= j < i && Qualifies(units[j], text) {
      var j :| 0 <= j < i && Qualifies(units[j], text);
      k := FirstQualifying(units, text, j);
    } else {
      k := i;
    }
  }

  /** First match wins across the whole set: when unit `i` of the set, in group and variant
      order, is the first unit that qualifies, the layer takes its target, whatever later
      units with the same source say. */
  lemma FirstMatchWins(strings: seq<UnitGroup>, text: string, i: nat)
    requires i < |Flatten(strings)| && Qualifies(Flatten(strings)[i], text)
    requires FirstAt(Flatten(strings), text, i)
    ensures TranslatedText(strings, text) == Flatten(strings)[i].target.value
  {
    FirstTargetIsFlatScan(strings, text);
    FirstInGroupIsFirstMatch(Flatten(strings), text);
  }

  lemma {:induction false} FirstTargetAppend(a: seq<UnitGroup>, b: seq<UnitGroup>, text: string)
    ensures FirstTarget(a + b, text) ==
              match FirstTarget(a, text) case Some(t) => Some(t) case None => FirstTarget(b, text)
    decreases |a|
  {
    if a == [] {
      assert a + b == b;
    } else {
      assert (a + b)[0] == a[0];
      assert (a + b)[1..] == a[1..] + b;
      FirstTargetAppend(a[1..], b, text);
    }
  }

  /** `translateTextLayer(layer, strings)`, where the layer is slot `i` of the page's text array. */
  method TranslateTextLayer(texts: array<string>, i: nat, strings: seq<UnitGroup>)
    requires i < texts.Length
    modifies texts
    ensures texts[i] == TranslatedText(strings, old(texts[i]))
    ensures forall j :: 0 <= j < texts.Length && j != i ==> texts[j] == old(texts[j])
  {
    var layerText := texts[i];
    var j := 0;
    while j < |strings|
      invariant 0 <= j <= |strings|
      invariant FirstTarget(strings, layerText) == FirstTarget(strings[j..], layerText)
    {
      var stringGroup := strings[j].variants;
      var k := 0;
      while k < |stringGroup|
        invariant 0 <= k <= |stringGroup|
        invariant FirstInGroup(stringGroup, layerText) == FirstInGroup(stringGroup[k..], layerText)
      {
        var str := stringGroup[k];
        if Truthy(str.source) && str.source.value == layerText && Truthy(str.target) {
          texts[i] := str.target.value;
          return;
        }
        assert stringGroup[k..][1..] == stringGroup[k + 1..];
        k := k + 1;
      }
      assert strings[j..][1..] == strings[j + 1..];
      j := j + 1;
    }
  }

  /** `translateTextLayers(textLayers, strings)`: every layer is translated from its own text. */
  method TranslateTextLayers(texts: array<string>, strings: seq<UnitGroup>)
    modifies texts
    ensures forall j :: 0 <= j < texts.Length ==> texts[j] == TranslatedText(strings, old(texts[j]))
  {
    var i := 0;
    while i < texts.Length
      invariant 0 <= i <= texts.Length
      invariant forall j :: 0 <= j < i ==> texts[j] == TranslatedText(strings, old(texts[j]))
      invariant forall j :: i <= j < texts.Length ==> texts[j] == old(texts[j])
    {
      TranslateTextLayer(texts, i, strings);
      i := i + 1;
    }
  }
}
