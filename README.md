# Smartling Sketch plugin: string catalogue and translation core, in Dafny

This project models the core of the Smartling plugin for Sketch. The plugin turns the text layers
of a design page into a string catalogue, which is a dictionary from generated keys to texts.
It removes duplicate texts and encodes the catalogue as a `.strings` file, an XLIFF 1.2 document
or a JSON file carrying Smartling directives. It also writes translations back onto the page by
matching each text layer's text against the source strings of a translation set.

Modules, one per part of the plugin:

- `Decimal` (`decimal.dfy`): the decimal rendering of a layer index and of a key suffix (`'-' + n`), with its inverse.
- `Dict` (`dict.dfy`): the JavaScript object used as a dictionary.
  - It is an insertion-ordered sequence of entries with unique keys.
  - `Put` is `object[key] = value`.
  - `IsTruthy` is the truthiness test the key search uses: the key is present and its value is not `""`.
  - `Dictionary` is the mutable object itself.
- `Layers` (`layers.dfy`): the layer tree, with `getTextSublayers` and `getTextLayersFromSymbol`.
- `Keys` (`keys.dfy`): `generateKeyForLayer`, with its search loop and its termination argument.
  The argument is that the dictionary has finitely many keys and the candidates never repeat.
- `Catalogue` (`catalogue.dfy`): `getStringsFromTextLayers` and `addStringsFromSymbolTextLayers`.
- `Translation` (`translation.dfy`): `translateTextLayer` and `translateTextLayers`. They work on an array holding the texts of the page's text layers.
- `Objects` (`objects.dfy`): `removeObjectDuplicates` and `isEmptyObject`.
- `Export` (`export.dfy`): the three encoders and the newline escape they share.
  - Each encoder returns the text it would write.
  - Readers for the `.strings` and XLIFF texts serve as the inverse the encoders are proved against.
- `Extract` (`extract.dfy`): the `extractStrings` pipeline, in the order the plugin runs it.

Each imperative function of the plugin is a Dafny method with the same loops. Its `ensures` ties
the result, or the new state of the dictionary or the text array, to a specification function.
The properties the plugin relies on are proved about those functions.

Three behaviours of the code are easy to misread:

- Key search: a candidate is skipped only while its stored value is truthy. A key that maps to `""` is therefore reused, not only an absent key.
- Text collection: the texts of a group's child groups come before its own direct text children, not in document order.
  - `Layers.NestedTextsComeFirst` states that order.
  - `Layers.TextSublayersExactlyOnce` proves that this order and document order collect the same multiset of layers.
- Key suffixes: a later layer gets a larger suffix number than every earlier layer with the same base key whose text is not empty (`Catalogue.SameBaseKeysIncrease`). A layer whose text is `""` leaves its key free: a layer with the same base that comes right after it gets the same key again and overwrites the entry (`Catalogue.EmptyTextKeyReused`). The numbers need not be 1, 2, 3, ...: a key of another base can already hold a candidate, which the search then skips. Layers with pairwise distinct container names and indices keep their base keys, with no suffix (`Catalogue.DistinctPairsKeepBases`).

## Model

| member | source | states |
|---|---|---|
| Decimal.NatToString | Contents/Sketch/strings.js:260 | the JavaScript rendering of a non-negative index: at least one digit, only digits, no leading zero |
| Decimal.ParseNatToString | Contents/Sketch/strings.js:260 | reading the digits back gives the number: the rendering is invertible |
| Decimal.NatToStringInjective | Contents/Sketch/strings.js:264 | distinct suffix numbers give distinct suffix strings |
| Dict.Get | Contents/Sketch/strings.js:263 | `object[key]`: the value of the first entry carrying the key, or none |
| Dict.IsTruthy | Contents/Sketch/strings.js:263 | the loop test `stringsDict[keyWithIndex]`: the key is present and its value is not `""` |
| Dict.GetFindsEntry | Contents/Sketch/strings.js:263 | `object[key]` is defined exactly when some entry has that key, and it is then the value of such an entry |
| Dict.GetAt | Contents/Sketch/strings.js:263 | with unique keys, looking up the key at a position gives that position's value |
| Dict.Put | Contents/Sketch/strings.js:224 | after `object[key] = value` the key maps to value and every other key maps to what it did before |
| Dict.PutShape | Contents/Sketch/strings.js:224 | storing keeps every existing key at its position; a new key is appended at the end, so the object grows by one exactly when the key was absent |
| Dict.PutUniqueKeys | Contents/Sketch/strings.js:224 | storing keeps keys unique |
| Dict.KeySet | Contents/Sketch/strings.js:263 | the set of keys is exactly the keys defined in the object, and has no more elements than there are entries |
| Dict.PutCountNonEmpty | Contents/Sketch/strings.js:223-224 | storing under a key that is not truthy loses no non-empty value; the number of non-empty values grows by one exactly when the stored value is non-empty |
| Dict.Dictionary.constructor | Contents/Sketch/strings.js:220 | `{}`: an empty object |
| Dict.Dictionary.Set | Contents/Sketch/strings.js:224 | the object's entries become `Put` of the old entries, and keys stay unique |
| Layers.TextSublayers | Contents/Sketch/strings.js:202-216 | the result holds text layers only |
| Layers.GroupSublayerTexts | Contents/Sketch/strings.js:205-208 | the first loop: the recursive results for the child groups, concatenated in child order |
| Layers.DirectTexts | Contents/Sketch/strings.js:210-213 | the second loop: the direct text children in child order |
| Layers.GroupTextsCollected | Contents/Sketch/strings.js:205-208 | every text collected from a child group is in the first loop's result |
| Layers.TextSublayersExactlyOnce | Contents/Sketch/strings.js:202-216 | every text node reachable through groups is returned exactly as often as it occurs: the same multiset, and the same length, as a document-order traversal |
| Layers.DirectTextsAreTextChildren | Contents/Sketch/strings.js:210-213 | the second loop collects exactly the text children of the group, no more entries than it has children |
| Layers.NestedTextsComeFirst | Contents/Sketch/strings.js:205-215 | every text that the document-order traversal finds inside a child group is placed before every direct text child, wherever the two stand among the children |
| Layers.SymbolTexts | Contents/Sketch/strings.js:237-249 | the result holds text layers only |
| Layers.SymbolTextsAppend | Contents/Sketch/strings.js:240-247 | the symbol traversal works child by child: for a child list split in two, it is the traversal of the first part followed by that of the second |
| Layers.SymbolTextsIgnoresGroups | Contents/Sketch/strings.js:242-246 | groups and other layers contribute nothing: removing them from the child list leaves the result unchanged |
| Layers.TextsAndSymbols | Contents/Sketch/strings.js:242-246 | the filtered child list holds only text layers and symbol instances |
| Keys.BaseKey | Contents/Sketch/strings.js:260 | the container's name, a hyphen and the layer's index in decimal |
| Keys.Candidate | Contents/Sketch/strings.js:261-264 | the n-th key tried: the base for n = 0, else the base, a hyphen and n in decimal |
| Keys.FreeIndex | Contents/Sketch/strings.js:262-266 | the suffix number at which the search loop stops |
| Keys.GeneratedKey | Contents/Sketch/strings.js:259-268 | the key `generateKeyForLayer` returns: the candidate at the stopping suffix |
| Keys.DigitTailAfterHyphen | Contents/Sketch/strings.js:260 | a hyphen followed by the index digits ends the base key in exactly those digits |
| Keys.BaseKeyInjective | Contents/Sketch/strings.js:260 | two text layers with the same base key have the same container name and the same index |
| Keys.CandidateInjective | Contents/Sketch/strings.js:263-265 | the suffix is always added to the base, never to an earlier candidate, so two different suffix numbers give two different keys |
| Keys.FreeCandidateExists | Contents/Sketch/strings.js:263-266 | among the first size+1 candidates one is not truthy in the dictionary, so the search loop terminates |
| Keys.FreeIndexIsFirstFree | Contents/Sketch/strings.js:263-266 | the suffix number the loop settles on is at most the dictionary's size, its candidate is not truthy, and every smaller candidate is truthy |
| Keys.GeneratedKeyIsFirstFree | Contents/Sketch/strings.js:259-268 | the key is never truthy in the dictionary; it is the base `container-index` when that is absent or maps to `""`, and otherwise the base plus `-n` for the smallest n >= 1 whose key is absent or maps to `""` |
| Keys.GenerateKeyForLayer | Contents/Sketch/strings.js:259-268 | the loop returns exactly the first free candidate, terminates, and does not modify the dictionary |
| Catalogue.Collect | Contents/Sketch/strings.js:218-228 | the dictionary after the loop has stored each layer's text under the key generated from the dictionary built so far |
| Catalogue.AssignedKeys | Contents/Sketch/strings.js:221-225 | one key per layer, in layer order |
| Catalogue.StepKeepsNonEmpty | Contents/Sketch/strings.js:223-224 | one loop step never overwrites an entry whose value is non-empty |
| Catalogue.CollectUniqueKeys | Contents/Sketch/strings.js:218-228 | the built dictionary has unique keys |
| Catalogue.CollectNeverOverwrites | Contents/Sketch/strings.js:218-228 | an entry holding a non-empty text after some prefix of the layers keeps that text to the end |
| Catalogue.CollectKeepsEveryText | Contents/Sketch/strings.js:218-228 | every layer with non-empty text ends up under its own key mapping to its text, and the keys of two such layers differ |
| Catalogue.CollectSize | Contents/Sketch/strings.js:218-228 | the dictionary has at most one entry per layer and at least one per layer with non-empty text; its non-empty values are exactly as many as those layers; it is empty exactly when there are no layers |
| Catalogue.NextCandidateIsFree | Contents/Sketch/strings.js:263-266 | in a dictionary holding candidates 0..n-1 of one base with non-empty values, the search stops at candidate n, which is absent |
| Catalogue.SuffixedEntries | Contents/Sketch/strings.js:221-225 | the closed form of the dictionary for layers sharing a base: entry i is candidate i with the i-th text |
| Catalogue.SuffixedKeys | Contents/Sketch/strings.js:264 | the closed form of the keys for layers sharing a base: key i is candidate i |
| Catalogue.SharedBaseStep | Contents/Sketch/strings.js:221-225 | on such a dictionary one loop step appends the next layer under the next candidate |
| Catalogue.SuffixedEntriesHoldCandidates | Contents/Sketch/strings.js:221-225 | the closed form holds candidates 0..n-1 with non-empty values |
| Catalogue.SharedBaseKey | Contents/Sketch/strings.js:263-266 | on a dictionary holding candidates 0 .. n-1 of a base, a layer with that base gets candidate n, which is absent |
| Catalogue.SharedBaseExtend | Contents/Sketch/strings.js:218-228 | if the earlier layers got candidates 0 .. n-1, the next layer with the same base gets candidate n and the dictionary grows by that entry |
| Catalogue.SharedBaseGetsIncreasingSuffixes | Contents/Sketch/strings.js:218-228 | closed form for a list in which every layer shares one base key and has non-empty text: the keys are the base, then base-1, base-2, ... in traversal order, and the dictionary is exactly those entries (mixed lists: `Catalogue.SameBaseKeysIncrease`) |
| Catalogue.AssignedKeyAt | Contents/Sketch/strings.js:221-225 | layer i is stored under the key generated from the dictionary the first i layers built |
| Catalogue.StoredKeyStaysTruthy | Contents/Sketch/strings.js:223-225 | a layer with non-empty text leaves its own key truthy to the end of the loop |
| Catalogue.SkippedCandidateStaysTruthy | Contents/Sketch/strings.js:263-266 | every candidate the search skipped for a layer was truthy and stays truthy to the end of the loop |
| Catalogue.CandidatesStayTruthy | Contents/Sketch/strings.js:221-225 | once a layer with non-empty text is stored, its candidate and every smaller one of its base stay truthy to the end of the loop |
| Catalogue.FreeIndexBeyond | Contents/Sketch/strings.js:263-266 | when candidates 0 .. n are all truthy, the search stops beyond n |
| Catalogue.SameBaseSuffixesIncrease | Contents/Sketch/strings.js:218-228 | in any traversal, a later layer with the same base key as an earlier layer with non-empty text stops the search at a larger suffix number |
| Catalogue.SameBaseKeysIncrease | Contents/Sketch/strings.js:218-228 | in any traversal, two layers with the same base key, the earlier with non-empty text, are stored under candidates n1 < n2 of that base; the numbers need not be consecutive |
| Catalogue.FreeIndexAfterEmptyStore | Contents/Sketch/strings.js:263-266 | storing `""` under the first free candidate leaves it the first free candidate, because `""` is not truthy |
| Catalogue.EmptyTextKeyReused | Contents/Sketch/strings.js:221-225 | a layer with the same base right after a layer whose text is `""` is stored under the same key |
| Catalogue.AbsentBaseIsKept | Contents/Sketch/strings.js:259-268 | a layer whose base key no entry carries gets its base key, and storing it appends one entry |
| Catalogue.DistinctBasesCollect | Contents/Sketch/strings.js:218-228 | with pairwise distinct base keys the dictionary has one entry per layer, in layer order, each holding that layer's base key and text, whatever the texts |
| Catalogue.DistinctBasesKeepBases | Contents/Sketch/strings.js:218-228 | with pairwise distinct base keys every layer is assigned its base key, with no suffix |
| Catalogue.DistinctPairsKeepBases | Contents/Sketch/strings.js:218-228 | layers with pairwise distinct (container name, index) pairs get pairwise distinct keys, each its base key |
| Catalogue.GetStringsFromTextLayers | Contents/Sketch/strings.js:218-228 | returns a fresh dictionary with unique keys whose entries are the layer-by-layer specification `Collect` |
| Catalogue.PutAll | Contents/Sketch/strings.js:251-256 | the dictionary after `strings[layer.objectID()] = layer.stringValue()` for each symbol text layer in order |
| Catalogue.PutAllOtherKeys | Contents/Sketch/strings.js:251-256 | keys that no symbol layer carries keep their value |
| Catalogue.PutAllLastWins | Contents/Sketch/strings.js:251-256 | an identifier maps to the text of the last layer carrying it |
| Catalogue.PutAllKeepsOrder | Contents/Sketch/strings.js:251-256 | existing keys keep their positions, the dictionary does not shrink, keys stay unique, and the result is empty exactly when both the dictionary and the layer list are |
| Catalogue.AddStringsFromSymbolTextLayers | Contents/Sketch/strings.js:251-256 | the given dictionary is mutated into `PutAll` of its old entries and stays valid |
| Translation.Qualifies | Contents/Sketch/strings.js:312 | a unit matches when its source is non-empty and equal to the layer text and its target is non-empty |
| Translation.FirstInGroup | Contents/Sketch/strings.js:309-317 | the target of the first qualifying variant of one group, or none |
| Translation.FirstTarget | Contents/Sketch/strings.js:307-318 | the target of the first qualifying unit, groups in order and variants in order, or none |
| Translation.TranslatedText | Contents/Sketch/strings.js:304-319 | the layer text after the scan: the first qualifying target, or the old text |
| Translation.FirstInGroupIsFirstMatch | Contents/Sketch/strings.js:309-317 | within a list of units there is no match exactly when no unit qualifies (non-empty source equal to the text, non-empty target); otherwise the result is the target of the first qualifying unit |
| Translation.FirstTargetIsFlatScan | Contents/Sketch/strings.js:307-318 | scanning groups in order and variants in order is the same as scanning the flattened list of units |
| Translation.FirstInGroupAppend | Contents/Sketch/strings.js:309-317 | a match in the first part of a unit list wins over any match in the second |
| Translation.FirstTargetAppend | Contents/Sketch/strings.js:307-318 | a match in an earlier group wins over any match in a later one |
| Translation.TranslatedTextCases | Contents/Sketch/strings.js:304-319 | the text either stays as it is or becomes the target of a qualifying unit of the set; with no qualifying unit it stays as it is |
| Translation.FirstQualifying | Contents/Sketch/strings.js:309-317 | if some unit qualifies there is a first one, at or before it |
| Translation.FirstMatchWins | Contents/Sketch/strings.js:306-318 | when a unit is the first in the set, groups then variants, whose source is the layer text and whose target is non-empty, the layer takes that target, whatever later units say |
| Translation.TranslateTextLayer | Contents/Sketch/strings.js:304-319 | the layer's text becomes `TranslatedText` of its old text; no other layer changes |
| Translation.TranslateTextLayers | Contents/Sketch/strings.js:297-302 | every layer's new text is `TranslatedText` of its own old text, so no update affects another layer, and the number of layers is unchanged |
| Objects.Dedup | Contents/Sketch/util.js:130-140 | the entries whose value no earlier entry holds, in order |
| Objects.ValuesOf | Contents/Sketch/util.js:131-135 | the `values` array: the entries' values, position by position |
| Objects.DedupDistinct | Contents/Sketch/util.js:130-140 | the output has pairwise distinct values and no more entries than the input |
| Objects.DedupKeepsValues | Contents/Sketch/util.js:130-140 | a value occurs in the output exactly when it occurs in the input |
| Objects.DedupIsSubsequence | Contents/Sketch/util.js:130-140 | the output is a subsequence of the input: a strictly increasing map of positions carries each output entry, key and value, to an equal input entry |
| Objects.DedupKeepsFirst | Contents/Sketch/util.js:130-140 | an input entry survives exactly when no earlier entry holds its value, so each value stays under the first key that held it |
| Objects.LastKeptIffFirst | Contents/Sketch/util.js:134 | the last entry is kept exactly when no earlier entry holds its value |
| Objects.DedupUniqueKeys | Contents/Sketch/util.js:130-140 | output entries are input entries, so keys stay unique |
| Objects.DedupOfDistinct | Contents/Sketch/util.js:130-140 | an object whose values are already distinct is returned unchanged |
| Objects.DedupIdempotent | Contents/Sketch/util.js:130-140 | removing duplicates twice is the same as removing them once |
| Objects.DedupEmpty | Contents/Sketch/util.js:130-140 | the output is empty exactly when the input is |
| Objects.NewKeyIsAbsent | Contents/Sketch/util.js:136 | an object built from entries before position i lacks the key at i, so `result[key] = ...` appends |
| Objects.RemoveObjectDuplicates | Contents/Sketch/util.js:130-140 | returns a fresh object, with unique keys, whose entries are `Dedup` of the input's |
| Objects.IsEmptyObject | Contents/Sketch/util.js:121-128 | true exactly when the object has no keys |
| Export.EscapeNewlines | Contents/Sketch/util.js:67 | the escaped value contains no CR and no LF |
| Export.EscapeWithoutBreaks | Contents/Sketch/util.js:80 | a value without line breaks is written unchanged |
| Export.EscapeIdempotent | Contents/Sketch/util.js:80 | escaping an escaped value changes nothing |
| Export.EscapeAppend | Contents/Sketch/util.js:80 | escaping works piece by piece, unless a CR LF pair is split between the pieces |
| Export.EscapeCrLf | Contents/Sketch/util.js:67 | a CR LF pair becomes one escape, not two |
| Export.EscapeLoneBreak | Contents/Sketch/util.js:67 | a lone CR or a lone LF between break-free text becomes one backslash-`n` escape |
| Export.StringsLine | Contents/Sketch/util.js:80-81 | one `"KEY" = "VALUE";` line, with the value's line breaks escaped |
| Export.StringsFileText | Contents/Sketch/util.js:77-85 | the `.strings` text: one line per entry, in entry order |
| Export.ConcatMapAppend | Contents/Sketch/util.js:79-82 | the text for the entries of `a + b` is the text for `a` followed by the text for `b` |
| Export.StringsFileOneLinePerEntry | Contents/Sketch/util.js:77-85 | with keys free of line feeds the file has exactly one line per entry |
| Export.Escaped | Contents/Sketch/util.js:80 | the entries with their values escaped, position by position |
| Export.EscapedCons | Contents/Sketch/util.js:80 | escaping entries works entry by entry |
| Export.ParseLineRoundTrip | Contents/Sketch/util.js:81 | a `"KEY" = "VALUE";` line for a key without quotes reads back as that key and value |
| Export.StringsFileFirstLine | Contents/Sketch/util.js:79-82 | the file is the first entry's line, then the file for the remaining entries |
| Export.StringsFileStep | Contents/Sketch/util.js:79-82 | the first line reads back as the first entry with its value escaped |
| Export.StringsFileRoundTrip | Contents/Sketch/util.js:77-85 | reading the `.strings` text back gives every entry, in order, with its value escaped, provided no key holds a quote or a line feed |
| Export.StringsFileRoundTripExact | Contents/Sketch/util.js:77-85 | when, in addition, no value holds a line break, the text reads back as the catalogue itself |
| Export.ExportStringsToFile | Contents/Sketch/util.js:77-85 | the loop builds exactly `StringsFileText` of the object: the empty string for an empty object |
| Export.EscapeAddsNothing | Contents/Sketch/util.js:67 | escaping introduces no character other than backslash and `n` |
| Export.ParseUnitValueRoundTrip | Contents/Sketch/util.js:68 | a value without `<` followed by the closing tags reads back as that value |
| Export.ParseUnitKeyRoundTrip | Contents/Sketch/util.js:68 | a key without quotes followed by the rest of the unit reads back as that key and value |
| Export.ParseUnitRoundTrip | Contents/Sketch/util.js:68 | a `<trans-unit>` for a key without quotes and a value without `<` reads back as that entry and the text after it |
| Export.TransUnit | Contents/Sketch/util.js:67-68 | one `<trans-unit>` block: the key as `resname`, the escaped value as source, an empty target |
| Export.XliffBody | Contents/Sketch/util.js:65-69 | one unit per entry, in entry order |
| Export.XliffText | Contents/Sketch/util.js:60-74 | the fixed header (XML declaration, XLIFF 1.2 root, file and body openers), the body, then the fixed footer |
| Export.XliffBodyFirstUnit | Contents/Sketch/util.js:66-69 | the body is the first entry's unit, then the units of the remaining entries |
| Export.XliffBodyStep | Contents/Sketch/util.js:66-69 | the first unit reads back as the first entry with its value escaped |
| Export.XliffBodyRoundTrip | Contents/Sketch/util.js:66-69 | reading the body back gives every entry, in order, with its value escaped |
| Export.XliffRoundTrip | Contents/Sketch/util.js:60-74 | the document is the fixed header, one unit per entry, and the fixed footer: reading it back gives every entry, in order, with its value escaped, provided no key holds a quote and no value holds a `<` |
| Export.ExportStringsToXliff | Contents/Sketch/util.js:60-74 | the loop builds exactly `XliffText` of the object |
| Export.JsonWithDirectives | Contents/Sketch/util.js:21-29 | the splice fails exactly on an empty serialisation; otherwise the text begins with the directives block and has length \|directives\| + \|serialised\| - 1 |
| Export.JsonRoundTrip | Contents/Sketch/util.js:21-29 | removing the directives and restoring the brace gives back the serialised object, whenever it opens with a brace |
| Export.ExportStringsToJson | Contents/Sketch/util.js:15-33 | the text is `JsonWithDirectives` of the serialiser's output for the object |
| Extract.FormatOf | Contents/Sketch/strings.js:24-30 | the encoder chosen for the extensions `json`, `xlf` and `strings`, none for any other |
| Extract.CatalogueOf | Contents/Sketch/strings.js:10-14 | the page's text layers keyed in traversal order, then its symbol texts under their identifiers, then duplicates removed |
| Extract.Encode | Contents/Sketch/strings.js:24-29 | the text the chosen encoder produces for a catalogue: the JSON splice of the serialiser output, the XLIFF document or the `.strings` file |
| Extract.CatalogueEmpty | Contents/Sketch/strings.js:10-20 | the catalogue is empty exactly when the page has no text layer reachable through groups or through symbol masters |
| Extract.CatalogueWellFormed | Contents/Sketch/strings.js:10-14 | the catalogue that reaches the encoders has unique keys and pairwise distinct values |
| Extract.PageStrings | Contents/Sketch/strings.js:10-14 | the dictionary built from a page is a fresh, well-formed dictionary holding exactly the page's catalogue: text layers keyed in traversal order, symbol texts under their identifiers, duplicates removed |
| Extract.ExtractStrings | Contents/Sketch/strings.js:9-35 | the "no strings" alert is shown exactly when the catalogue is empty; otherwise a cancelled panel exports nothing, and an extension `json`, `xlf` or `strings` yields that encoder's text of the catalogue, any other extension none |

## Left out

- `Contents/Sketch/api.js` (logout and support) is not part of this model: it makes vendor calls and opens a browser.
- Host and vendor glue is not modelled:
  - framework loading;
  - the alert;
  - `trackEvent`;
  - the upload and download calls with their delegate callbacks;
  - `uploadStrings`, `importStrings` and `downloadStrings`, beyond the operations they call, which are modelled.
- `openSavePanel` and `openXliff` are dialogs and are not modelled.
  - `Extract.ExtractStrings` takes the chosen path extension as a parameter, with none meaning cancelled.
  - The panel's popup offers the single item "JSON", while the code maps its index to `types[0]`, which is "xlf". The model does not say which extension the panel returns.
- Every `writeToURL` file write is left out: each encoder returns the text it would write.
- `NSJSONSerialization` is a foreign call. It is a function parameter, and its output is the input of the splice.
- `pseudoLocalize` is not modelled: it relies on `lib/pseudoloc.js` and a floating-point ratio.
- `captureContext` is not modelled: it uses rectangle arithmetic and exports page images.
- Host document mutations are not modelled: `duplicateCurrentPage`, `convertCurrentPageSymbols`, `convertSymbol`, and the `adjustToFit` call after a translation.
- Object key order: JavaScript enumerates integer-like keys first, in numeric order. The model keeps insertion order for every key.
- `children` of a page or symbol master is taken as the direct child list. In `getTextLayersFromSymbol`, the host's own notion of children is not modelled.
- Layer identity and aliasing: the translation methods work on an array of the text layers' texts, so two entries never denote the same layer.
- XML and `.strings` quoting: neither encoder escapes quotes, `<` or `&`. The round-trip lemmas therefore require keys without quotes, `.strings` keys without a line feed, and XLIFF values without `<`, and claim no well-formedness beyond that.
- Export.ExportStringsToFile, Export.ExportStringsToXliff, Export.ExportStringsToJson: these return the file text rather than the success flag of the write.
