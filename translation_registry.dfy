/** The registry of translated catalog objects that free-text search runs over. A language file
    (a JSON object from translation keys to values) supplies the translated names; the registry
    is empty until it is initialized, then holds its entries sorted by translated name. What
    name and part indices an entry keeps for a translation value, how a text is split into
    query parts, and how matching consumes those parts against an entry, are parameters of the
    model. */
module Translation {
  import opened Wrappers
  import opened Sequences
  import opened Sorting

  /** A JSON value as read from a language file. Numbers keep their literal text. */
  datatype JsonValue =
    | JsonNull
    | JsonBool(b: bool)
    | JsonNumber(literal: string)
    | JsonString(s: string)
    | JsonArray(elements: seq<JsonValue>)
    | JsonObject(members: map<string, JsonValue>)
  {
    /** Booleans, numbers and strings are primitives; null, arrays and objects are not. */
    predicate IsPrimitive() {
      JsonBool? || JsonNumber? || JsonString?
    }
  }

  /** The translated string for `translationKey`, if the language file maps it to a primitive;
      numbers and booleans are turned into their textual form. */
  function GetTranslationOrNull(languageFile: map<string, JsonValue>, translationKey: string): (r: Option<string>)
    ensures r.None? <==> translationKey !in languageFile || !languageFile[translationKey].IsPrimitive()
    ensures translationKey in languageFile ==>
      match languageFile[translationKey]
      case JsonString(s) => r == Some(s)
      case JsonNumber(literal) => r == Some(literal)
      case JsonBool(b) => r == Some(if b then "true" else "false")
      case _ => r == None
  {
    if translationKey !in languageFile then None
    else
      var value := languageFile[translationKey];
      if !value.IsPrimitive() then None
      else match value
        case JsonString(s) => Some(s)
        case JsonNumber(literal) => Some(literal)
        case JsonBool(b) => Some(if b then "true" else "false")
  }

  /** A catalog object with its translated name and the part indices of that name. */
  datatype TranslatedEntry<T, P> = TranslatedEntry(translatable: T, translation: string, partIndices: seq<P>)

  function TranslationOf<T, P>(e: TranslatedEntry<T, P>): string {
    e.translation
  }

  class TranslationRegistry<T, P> {
    const languageFile: map<string, JsonValue>
    /** The translation key of a catalog object. */
    const keyOf: T -> string
    /** The name an entry stores for a translation value, and the part indices it computes for
        it, both fixed by the entry's two-argument constructor when it is built. */
    const entryName: string -> string
    const entryParts: string -> seq<P>
    /** The query parts of a search text. */
    const searchParts: string -> seq<P>
    /** The query parts still pending after matching the given parts of a search text against an
        entry's translation and part indices. */
    const pendingAfterMatch: (string, seq<P>, string, seq<P>) -> seq<P>
    /** The three catalogs (enchantments, materials, effects) used when no items are given. */
    const enchantments: seq<T>
    const materials: seq<T>
    const effects: seq<T>

    /** The entries, sorted by translation; `None` until `Initialize` runs. */
    var entries: Option<seq<TranslatedEntry<T, P>>>

    ghost predicate Valid()
      reads this
    {
      entries.Some? ==> SortedBy(entries.value, TranslationOf)
    }

    constructor(languageFile: map<string, JsonValue>, keyOf: T -> string,
                entryName: string -> string, entryParts: string -> seq<P>,
                searchParts: string -> seq<P>, pendingAfterMatch: (string, seq<P>, string, seq<P>) -> seq<P>,
                enchantments: seq<T>, materials: seq<T>, effects: seq<T>)
      ensures this.languageFile == languageFile && this.keyOf == keyOf
      ensures this.entryName == entryName && this.entryParts == entryParts
      ensures this.searchParts == searchParts && this.pendingAfterMatch == pendingAfterMatch
      ensures this.enchantments == enchantments && this.materials == materials && this.effects == effects
      ensures entries == None
      ensures Valid()
    {
      this.languageFile := languageFile;
      this.keyOf := keyOf;
      this.entryName := entryName;
      this.entryParts := entryParts;
      this.searchParts := searchParts;
      this.pendingAfterMatch := pendingAfterMatch;
      this.enchantments := enchantments;
      this.materials := materials;
      this.effects := effects;
      entries := None;
    }

    /** Whether `item`'s translation key has a translation in the language file. */
    predicate HasTranslation(item: T) {
      GetTranslationOrNull(languageFile, keyOf(item)).Some?
    }

    /** The entry built for an item that has a translation. */
    function EntryOf(item: T): TranslatedEntry<T, P>
      requires HasTranslation(item)
    {
      var translation := GetTranslationOrNull(languageFile, keyOf(item)).value;
      TranslatedEntry(item, entryName(translation), entryParts(translation))
    }

    /** One entry per item that has a translation, in the order of `items`. */
    function EntriesFor(items: seq<T>): seq<TranslatedEntry<T, P>> {
      if items == [] then []
      else
        var last := items[|items| - 1];
        EntriesFor(items[..|items| - 1]) + (if HasTranslation(last) then [EntryOf(last)] else [])
    }

    /** Building entries skips exactly the untranslated items: it is filtering the items by
        `HasTranslation`, then building each remaining item's entry. */
    lemma {:induction false} EntriesForIsFilterThenBuild(items: seq<T>)
      ensures |EntriesFor(items)| == |Filter(items, HasTranslation)|
      ensures forall k :: 0 <= k < |EntriesFor(items)| ==>
        HasTranslation(Filter(items, HasTranslation)[k]) && EntriesFor(items)[k] == EntryOf(Filter(items, HasTranslation)[k])
      decreases |items|
    {
      if items != [] {
        EntriesForIsFilterThenBuild(items[..|items| - 1]);
        FilterAll(items, HasTranslation);
      }
    }

    /** Entries are built item by item, so the entries of a concatenation concatenate. */
    lemma {:induction false} EntriesForConcat(a: seq<T>, b: seq<T>)
      ensures EntriesFor(a + b) == EntriesFor(a) + EntriesFor(b)
      decreases |b|
    {
      if b == [] {
        assert a + b == a;
      } else {
        EntriesForConcat(a, b[..|b| - 1]);
        assert (a + b)[..|a + b| - 1] == a + b[..|b| - 1];
      }
    }

    /** A language file without keys translates nothing, so no entries are built. */
    lemma {:induction false} NothingTranslated(items: seq<T>)
      requires languageFile == map[]
      ensures EntriesFor(items) == []
      decreases |items|
    {
      if items != [] {
        NothingTranslated(items[..|items| - 1]);
      }
    }

    /** Appends to `output` one entry per item that has a translation, in order. */
    method CreateEntries(items: seq<T>, output: seq<TranslatedEntry<T, P>>) returns (result: seq<TranslatedEntry<T, P>>)
      ensures result == output + EntriesFor(items)
      ensures |result| <= |output| + |items|
    {
      result := output;
      for i := 0 to |items|
        invariant result == output + EntriesFor(items[..i])
        invariant |result| <= |output| + i
      {
        var translatable := items[i];
        assert items[..i + 1][..i] == items[..i];
        var translationValue := GetTranslationOrNull(languageFile, keyOf(translatable));
        if translationValue.None? {
          continue;
        }
        result := result + [TranslatedEntry(translatable, entryName(translationValue.value), entryParts(translationValue.value))];
      }
      assert items[..|items|] == items;
    }

    /** The entries before sorting: the given items, or else the translated catalog objects. */
    function Unsorted(items: Option<seq<TranslatedEntry<T, P>>>): seq<TranslatedEntry<T, P>> {
      if items.Some? then items.value
      else EntriesFor(enchantments) + EntriesFor(materials) + EntriesFor(effects)
    }

    /** Replaces the entries by the unsorted entries, stably sorted by translation. */
    method Initialize(items: Option<seq<TranslatedEntry<T, P>>>)
      modifies this
      ensures entries == Some(SortByKey(Unsorted(items), TranslationOf))
      ensures multiset(entries.value) == multiset(Unsorted(items))
      ensures forall t :: KeyFilter(entries.value, TranslationOf, t) == KeyFilter(Unsorted(items), TranslationOf, t)
      ensures Valid()
    {
      var unsortedEntries := [];
      if items.Some? {
        unsortedEntries := unsortedEntries + items.value;
        assert unsortedEntries == items.value;
      } else {
        unsortedEntries := CreateEntries(enchantments, unsortedEntries);
        unsortedEntries := CreateEntries(materials, unsortedEntries);
        unsortedEntries := CreateEntries(effects, unsortedEntries);
      }
      assert unsortedEntries == Unsorted(items);
      var sorted := ToArray(unsortedEntries);
      SortInPlace(sorted, TranslationOf);
      SortByKeyProperties(unsortedEntries, TranslationOf);
      entries := Some(sorted[..]);
    }

    /** Whether matching `text` against `e` leaves no query part pending. Each entry is matched
        with its own copies of the query parts and of its part indices. */
    function FullyMatched(text: string): TranslatedEntry<T, P> -> bool {
      (e: TranslatedEntry<T, P>) => pendingAfterMatch(text, searchParts(text), e.translation, e.partIndices) == []
    }

    /** The entries fully matched by `text`, in the sorted order; nothing before initialization. */
    method Search(text: string) returns (result: seq<TranslatedEntry<T, P>>)
      requires Valid()
      ensures entries.None? ==> result == []
      ensures entries.Some? ==> result == Filter(entries.value, FullyMatched(text))
      ensures entries.Some? ==> IsSubsequence(result, entries.value) && SortedBy(result, TranslationOf)
      ensures entries.Some? ==> forall e :: e in result <==> e in entries.value && FullyMatched(text)(e)
    {
      if entries.None? {
        return [];
      }
      var all := entries.value;
      result := [];
      var textParts := searchParts(text);
      for i := 0 to |all|
        invariant result == Filter(all[..i], FullyMatched(text))
      {
        var entry := all[i];
        assert all[..i + 1] == all[..i] + [entry];
        var pendingTextParts := pendingAfterMatch(text, textParts, entry.translation, entry.partIndices);
        if pendingTextParts == [] {
          result := result + [entry];
        }
      }
      assert all[..|all|] == all;
      FilterIsSubsequence(all, FullyMatched(text));
      FilterSortedBy(all, FullyMatched(text), TranslationOf);
      forall e ensures e in result <==> e in all && FullyMatched(text)(e) {
        FilterMembership(all, FullyMatched(text), e);
      }
    }
  }

  /** A fresh array holding `s`. */
  method ToArray<E>(s: seq<E>) returns (a: array<E>)
    ensures fresh(a) && a[..] == s
  {
    a := new E[|s|](k requires 0 <= k < |s| => s[k]);
  }

  /** Searching a registry that was never initialized finds nothing and leaves it uninitialized. */
  method SearchBeforeInitializeExample<T, P>(languageFile: map<string, JsonValue>, keyOf: T -> string,
                                            entryName: string -> string, entryParts: string -> seq<P>, searchParts: string -> seq<P>,
                                            pendingAfterMatch: (string, seq<P>, string, seq<P>) -> seq<P>,
                                            enchantments: seq<T>, materials: seq<T>, effects: seq<T>, text: string)
    returns (found: seq<TranslatedEntry<T, P>>, initialized: bool)
    ensures found == [] && !initialized
  {
    var registry := new TranslationRegistry(languageFile, keyOf, entryName, entryParts, searchParts, pendingAfterMatch, enchantments, materials, effects);
    found := registry.Search(text);
    initialized := registry.entries.Some?;
  }

  /** Initializing from the catalogs over a language file that translates nothing leaves the
      registry initialized and empty, and searching it finds nothing. */
  method EmptyLanguageFileExample<T, P>(keyOf: T -> string, entryName: string -> string, entryParts: string -> seq<P>, searchParts: string -> seq<P>,
                                        pendingAfterMatch: (string, seq<P>, string, seq<P>) -> seq<P>,
                                        enchantments: seq<T>, materials: seq<T>, effects: seq<T>, text: string)
    returns (found: seq<TranslatedEntry<T, P>>)
    ensures found == []
  {
    var registry := new TranslationRegistry(map[], keyOf, entryName, entryParts, searchParts, pendingAfterMatch, enchantments, materials, effects);
    registry.Initialize(None);
    registry.NothingTranslated(enchantments);
    registry.NothingTranslated(materials);
    registry.NothingTranslated(effects);
    found := registry.Search(text);
  }
}
