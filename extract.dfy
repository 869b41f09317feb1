/** `extractStrings`: the order in which the page's layers become a catalogue, and the choice of
    encoder. The save panel is a parameter: the path extension the user picked, or none when the
    panel was cancelled. */
module Extract {
  import opened Dict
  import opened Layers
  import opened Catalogue
  import opened Objects
  import opened Export

  datatype Format = Json | Xliff | StringsFile

  datatype Outcome =
    | NoStrings                                   // the "No strings found on this page" alert
    | Cancelled                                   // the save panel returned no URL
    | Exported(format: Format, text: Result<string>)
    | NotExported                                 // an extension none of the encoders handles

  /** The format `extractStrings` picks for a path extension. */
  function FormatOf(extension: string): Option<Format> {
    if extension == "json" then Some(Json)
    else if extension == "xlf" then Some(Xliff)
    else if extension == "strings" then Some(StringsFile)
    else None
  }

  /** The catalogue built from a page: keys for its text layers, symbol texts under their
      identifiers, then duplicates removed. */
  function CatalogueOf(page: seq<Layer>): seq<Entry> {
    Dedup(PutAll(Collect(TextSublayers(page)), SymbolTexts(page)))
  }

  /** The file text for a catalogue in a format. */
  function Encode(format: Format, d: seq<Entry>, serialise: seq<Entry> -> string): Result<string> {
    match format
    case Json => JsonWithDirectives(serialise(d))
    case Xliff => Success(XliffText(d))
    case StringsFile => Success(StringsFileText(d))
  }

  /** The catalogue is empty exactly when the page holds no text layer, reachable through groups
      or through symbol masters. */
  lemma CatalogueEmpty(page: seq<Layer>)
    ensures CatalogueOf(page) == [] <==> TextSublayers(page) == [] && SymbolTexts(page) == []
  {
    var texts := TextSublayers(page);
    CollectSize(texts);
    PutAllKeepsOrder(Collect(texts), SymbolTexts(page));
    DedupEmpty(PutAll(Collect(texts), SymbolTexts(page)));
  }

  /** The catalogue that reaches the encoders has unique keys and pairwise distinct values. */
  lemma CatalogueWellFormed(page: seq<Layer>)
    ensures UniqueKeys(CatalogueOf(page))
    ensures DistinctValues(CatalogueOf(page))
  {
    var texts := TextSublayers(page);
    CollectUniqueKeys(texts);
    PutAllKeepsOrder(Collect(texts), SymbolTexts(page));
    DedupUniqueKeys(PutAll(Collect(texts), SymbolTexts(page)));
    DedupDistinct(PutAll(Collect(texts), SymbolTexts(page)));
  }

  /** The first steps of `extractStrings` (and of `uploadStrings`): the page's catalogue as a
      fresh dictionary. */
  method PageStrings(page: seq<Layer>) returns (strings: Dictionary)
    ensures fresh(strings) && strings.Valid()
    ensures strings.entries == CatalogueOf(page)
  {
    var textLayers := TextSublayers(page);
    strings := GetStringsFromTextLayers(textLayers);
    var symbolTextLayers := SymbolTexts(page);
    AddStringsFromSymbolTextLayers(strings, symbolTextLayers);
    strings := RemoveObjectDuplicates(strings);
  }

  /** `extractStrings(context)`. The encoders run only on a non-empty catalogue. */
  method ExtractStrings(page: seq<Layer>, extension: Option<string>, serialise: seq<Entry> -> string)
    returns (outcome: Outcome)
    ensures outcome.NoStrings? <==> CatalogueOf(page) == []
    ensures CatalogueOf(page) != [] && extension.None? ==> outcome.Cancelled?
    ensures CatalogueOf(page) != [] && extension.Some? ==>
              outcome == match FormatOf(extension.value)
                         case Some(f) => Exported(f, Encode(f, CatalogueOf(page), serialise))
                         case None => NotExported
  {
    var strings := PageStrings(page);
    var empty := IsEmptyObject(strings);
    if empty {
      return NoStrings;
    }

    if extension.None? {
      return Cancelled;
    }
    var ext := extension.value;
    if ext == "json" {
      var json := ExportStringsToJson(strings, serialise);
      outcome := Exported(Json, json);
    } else if ext == "xlf" {
      var xliff := ExportStringsToXliff(strings);
      outcome := Exported(Xliff, Success(xliff));
    } else if ext == "strings" {
      var text := ExportStringsToFile(strings);
      outcome := Exported(StringsFile, Success(text));
    } else {
      outcome := NotExported;
    }
  }
}
