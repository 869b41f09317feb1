/** The document's layer tree and the two ways strings.js collects text layers from it. */
module Layers {

  /** A node of the host document's layer tree. `Group` stands for every node the host calls a
      group (groups, artboards); a `SymbolInstance` carries the child list of its symbol master. */
  datatype Layer =
    | Text(id: string, text: string, containerName: string, index: nat)
    | Group(children: seq<Layer>)
    | SymbolInstance(master: seq<Layer>)
    | Other

  predicate AllText(layers: seq<Layer>) {
    forall i :: 0 <= i < |layers| ==> layers[i].Text?
  }

  /** `getTextSublayers`: for a group's child list, the texts found (recursively) in its child
      groups, in child order, followed by its own direct text children. */
  function TextSublayers(children: seq<Layer>): (r: seq<Layer>)
    ensures AllText(r)
    decreases children, 1
  {
    GroupSublayerTexts(children) + DirectTexts(children)
  }

  /** The first loop of `getTextSublayers`: the recursive results for the child groups, concatenated. */
  function GroupSublayerTexts(children: seq<Layer>): (r: seq<Layer>)
    ensures AllText(r)
    decreases children, 0
  {
    if children == [] then []
    else
      (match children[0]
       case Group(cs) => TextSublayers(cs)
       case _ => []) + GroupSublayerTexts(children[1..])
  }

  /** The second loop of `getTextSublayers`: the direct text children, in child order. */
  function DirectTexts(children: seq<Layer>): (r: seq<Layer>)
    ensures AllText(r)
    decreases children
  {
    if children == [] then []
    else (if children[0].Text? then [children[0]] else []) + DirectTexts(children[1..])
  }

  /** Reference definition: every text node reachable through groups, in document order. */
  function DocumentTexts(children: seq<Layer>): seq<Layer>
    decreases children
  {
    if children == [] then []
    else
      (match children[0]
       case Text(_, _, _, _) => [children[0]]
       case Group(cs) => DocumentTexts(cs)
       case _ => []) + DocumentTexts(children[1..])
  }

  /** `getTextSublayers` returns every text node reachable through groups, each exactly as often
      as it occurs in the tree: the same multiset as the document-order traversal. */
  lemma {:induction false} TextSublayersExactlyOnce(children: seq<Layer>)
    ensures multiset(TextSublayers(children)) == multiset(DocumentTexts(children))
    ensures |TextSublayers(children)| == |DocumentTexts(children)|
    decreases children
  {
    if children != [] {
      var head, rest := children[0], children[1..];
      TextSublayersExactlyOnce(rest);
      if head.Group? {
        TextSublayersExactlyOnce(head.children);
      }
      var own := if head.Group? then TextSublayers(head.children) else [];
      var direct := if head.Text? then [head] else [];
      var doc := if head.Group? then DocumentTexts(head.children) else direct;
      assert GroupSublayerTexts(children) == own + GroupSublayerTexts(rest);
      assert DirectTexts(children) == direct + DirectTexts(rest);
      assert DocumentTexts(children) == doc + DocumentTexts(rest);
      assert multiset(own + direct) == multiset(doc);
      calc {
        multiset(TextSublayers(children));
        multiset(own + GroupSublayerTexts(rest) + (direct + DirectTexts(rest)));
        multiset(own + direct) + multiset(TextSublayers(rest));
        multiset(DocumentTexts(children));
      }
      assert |TextSublayers(children)| == |multiset(TextSublayers(children))|;
      assert |DocumentTexts(children)| == |multiset(DocumentTexts(children))|;
    }
  }

  /** The direct text children are exactly the `Text` entries of the child list, in order. */
  lemma {:induction false} DirectTextsAreTextChildren(children: seq<Layer>)
    ensures forall l :: l in DirectTexts(children) <==> l in children && l.Text?
    ensures |DirectTexts(children)| <= |children|
    decreases children
  {
    if children != [] {
      DirectTextsAreTextChildren(children[1..]);
      assert children == [children[0]] + children[1..];
    }
  }

  /** Every text that a child group holds is collected by the first loop. */
  lemma {:induction false} GroupTextsCollected(children: seq<Layer>, g: nat, t: Layer)
    requires g < |children| && children[g].Group? && t in TextSublayers(children[g].children)
    ensures t in GroupSublayerTexts(children)
    decreases |children|
  {
    if g > 0 {
      GroupTextsCollected(children[1..], g - 1, t);
    }
  }

  /** `getTextSublayers` puts every text nested in a child group before every direct text child,
      wherever the two stand in the child list, so it departs from document order whenever a text
      child precedes a group that holds text. */
  lemma NestedTextsComeFirst(children: seq<Layer>, g: nat, k: nat, t: Layer)
    requires g < |children| && children[g].Group? && t in DocumentTexts(children[g].children)
    requires k < |children| && children[k].Text?
    ensures exists p, q :: 0 <= p < q < |TextSublayers(children)|
              && TextSublayers(children)[p] == t && TextSublayers(children)[q] == children[k]
  {
    var nested := GroupSublayerTexts(children);
    var direct := DirectTexts(children);
    TextSublayersExactlyOnce(children[g].children);
    assert t in multiset(DocumentTexts(children[g].children));
    GroupTextsCollected(children, g, t);
    DirectTextsAreTextChildren(children);
    assert children[k] in direct;
    var p :| 0 <= p < |nested| && nested[p] == t;
    var q :| 0 <= q < |direct| && direct[q] == children[k];
    assert TextSublayers(children) == nested + direct;
    assert TextSublayers(children)[p] == t && TextSublayers(children)[|nested| + q] == children[k];
  }

  /** `getTextLayersFromSymbol`: direct text children and, for every symbol instance, the texts of
      its master, interleaved in child order; groups and other layers contribute nothing. */
  function SymbolTexts(children: seq<Layer>): (r: seq<Layer>)
    ensures AllText(r)
    decreases children
  {
    if children == [] then []
    else
      (match children[0]
       case SymbolInstance(m) => SymbolTexts(m)
       case Text(_, _, _, _) => [children[0]]
       case _ => []) + SymbolTexts(children[1..])
  }

  /** The symbol traversal works child by child: it distributes over a split of the child list. */
  lemma {:induction false} SymbolTextsAppend(a: seq<Layer>, b: seq<Layer>)
    ensures SymbolTexts(a + b) == SymbolTexts(a) + SymbolTexts(b)
    decreases |a|
  {
    if a == [] {
      assert a + b == b;
    } else {
      assert (a + b)[0] == a[0];
      assert (a + b)[1..] == a[1..] + b;
      SymbolTextsAppend(a[1..], b);
    }
  }

  /** Groups and other layers are not entered by the symbol traversal, so removing them from a
      child list does not change its result. */
  lemma {:induction false} SymbolTextsIgnoresGroups(children: seq<Layer>)
    ensures SymbolTexts(children) == SymbolTexts(TextsAndSymbols(children))
    decreases |children|
  {
    if children != [] {
      SymbolTextsIgnoresGroups(children[1..]);
      var head := children[0];
      if head.Text? || head.SymbolInstance? {
        assert TextsAndSymbols(children) == [head] + TextsAndSymbols(children[1..]);
        assert ([head] + TextsAndSymbols(children[1..]))[1..] == TextsAndSymbols(children[1..]);
      }
    }
  }

  /** The child list without its groups and other layers. */
  function TextsAndSymbols(children: seq<Layer>): (r: seq<Layer>)
    ensures forall l :: l in r ==> l.Text? || l.SymbolInstance?
    decreases |children|
  {
    if children == [] then []
    else if children[0].Text? || children[0].SymbolInstance? then [children[0]] + TextsAndSymbols(children[1..])
    else TextsAndSymbols(children[1..])
  }
}
