/** The earlier variant of the widget (dom-manipulation/test.js). Its records have no id, an
    add needs both fields non-empty and does not trim them, the category list keeps an empty
    category, the selection is restored only from the current dropdown value, and an import
    appends the parsed records verbatim. */
module Legacy {
  import opened Wrappers
  import opened Seqs
  import Quotes

  /** A quote record `{text, category}`. */
  datatype LegacyQuote = LegacyQuote(text: string, category: string)

  /** The store the page starts with when `localStorage` holds no quotes. */
  const DefaultQuotes: seq<LegacyQuote> :=
    [ LegacyQuote("text", "category"),
      LegacyQuote("The harder you work for something, the greater you'll feel when you achieve it.", "Motivation"),
      LegacyQuote("Love is composed of a single soul inhabiting two bodies.", "Love"),
      LegacyQuote("Courage is not the absence of fear, but rather the judgment that something else is more important than fear.", "Courage"),
      LegacyQuote("The function of leadership is to produce more leaders, not more followers.", "Leadership"),
      LegacyQuote("A real friend is one who walks in when the rest of the world walks out.", "Friendship"),
      LegacyQuote("Success usually comes to those who are too busy to be looking for it.", "Success"),
      LegacyQuote("In the end, it's not the years in your life that count, it's the life in your years.", "Life"),
      LegacyQuote("The only true wisdom is in knowing you know nothing.", "Wisdom"),
      LegacyQuote("Happiness is not something ready made. It comes from your own actions.", "Happiness"),
      LegacyQuote("It always seems impossible until it's done.", "Perseverance") ]

  /** The parsed import file: a JSON array of records, or anything that cannot be spread into
      `push` (which throws before anything is appended). */
  datatype LegacyPayload = NotAnArray | Records(items: seq<LegacyQuote>)

  class LegacyStore {
    /** The quotes, in display order. */
    var quotes: seq<LegacyQuote>

    /** Page load: the array stored under "Quotes" when there is one, else the defaults. */
    constructor (stored: Option<seq<LegacyQuote>>)
      ensures stored.Some? ==> quotes == stored.value
      ensures stored.None? ==> quotes == DefaultQuotes
    {
      if stored.Some? {
        quotes := stored.value;
      } else {
        quotes := DefaultQuotes;
      }
    }

    /** The add button: rejected, with the store unchanged, when either input is the empty
        string (no trimming); otherwise `{text, category}` is appended as given and every
        earlier record stays as it was. */
    method AddQuote(text: string, category: string) returns (added: bool)
      modifies this
      ensures added <==> text != [] && category != []
      ensures added ==> quotes == old(quotes) + [LegacyQuote(text, category)]
      ensures !added ==> quotes == old(quotes)
    {
      if text == [] || category == [] {
        return false;
      }
      quotes := quotes + [LegacyQuote(text, category)];
      return true;
    }

    /** The import `onload`: `quotesArray.push(...importedQuotes)` appends the parsed records
        verbatim after the existing ones. */
    method ImportFromJsonFile(payload: LegacyPayload) returns (ok: bool)
      modifies this
      ensures payload.NotAnArray? ==> !ok && quotes == old(quotes)
      ensures payload.Records? ==> ok && quotes == old(quotes) + payload.items
    {
      if payload.NotAnArray? {
        return false;
      }
      quotes := quotes + payload.items;
      return true;
    }
  }

  /** The category of a record. */
  function CategoryOf(q: LegacyQuote): string {
    q.category
  }

  /** The category of every record, in store order. */
  function CategoryColumn(qs: seq<LegacyQuote>): seq<string> {
    Map(qs, CategoryOf)
  }

  /** The column of appended records is the two columns appended. */
  lemma CategoryColumnAppend(qs: seq<LegacyQuote>, more: seq<LegacyQuote>)
    ensures CategoryColumn(qs + more) == CategoryColumn(qs) + CategoryColumn(more)
  {
  }

  /** `uniqueCategories`: `[...new Set(categories)]`. Each category of the store, the empty
      one included, occurs exactly once, nothing else occurs, in order of first occurrence. */
  function UniqueCategories(qs: seq<LegacyQuote>): (cats: seq<string>)
    ensures NoDup(cats)
    ensures forall c :: c in cats <==> c in CategoryColumn(qs)
    ensures forall i, j :: 0 <= i < j < |cats| ==>
      FirstIndex(CategoryColumn(qs), cats[i]) < FirstIndex(CategoryColumn(qs), cats[j])
  {
    var column := CategoryColumn(qs);
    DistinctFirstSeenOrder(column);
    var cats := Distinct(column);
    assert forall c :: c in cats <==> c in column by {
      forall c ensures c in cats <==> c in column {
        if c in column {
          var i :| 0 <= i < |column| && column[i] == c;
        }
        if c in cats {
          var i :| 0 <= i < |cats| && cats[i] == c;
        }
      }
    }
    cats
  }

  /** Adding or importing records never removes or reorders a listed category: the old list
      is a prefix of the new one. */
  lemma UniqueCategoriesGrow(qs: seq<LegacyQuote>, more: seq<LegacyQuote>)
    ensures var before, after := UniqueCategories(qs), UniqueCategories(qs + more);
      |before| <= |after| && after[..|before|] == before
  {
    CategoryColumnAppend(qs, more);
    DistinctGrows(CategoryColumn(qs), CategoryColumn(more));
  }

  /** The selection `populateCategories` restores: the current dropdown value when it is
      still one of the categories, otherwise "all". */
  function RestoredSelection(cats: seq<string>, current: string): (sel: string)
    ensures sel == Quotes.All || sel in cats
    ensures sel == current <==> current in cats || current == Quotes.All
    ensures sel != current ==> sel == Quotes.All
  {
    if current in cats then current else Quotes.All
  }

  /** A restored selection survives an add or an import. */
  lemma SelectionSurvivesAppend(qs: seq<LegacyQuote>, more: seq<LegacyQuote>, current: string)
    requires current in UniqueCategories(qs)
    ensures RestoredSelection(UniqueCategories(qs + more), current) == current
  {
    UniqueCategoriesGrow(qs, more);
    var before := UniqueCategories(qs);
    var k :| 0 <= k < |before| && before[k] == current;
    assert UniqueCategories(qs + more)[k] == current;
  }

  /** `filterQuotes`: every quote under "all"; under any other value, exactly the quotes of
      that category, in store order. An empty value is not read as "all" here: it selects
      the quotes whose category is empty. */
  function FilterQuotes(qs: seq<LegacyQuote>, sel: string): (shown: seq<LegacyQuote>)
    ensures sel == Quotes.All ==> shown == qs
    ensures sel != Quotes.All ==> forall q :: q in shown <==> q in qs && q.category == sel
    ensures IsSubseq(shown, qs)
  {
    var shows := (q: LegacyQuote) => Quotes.Selects(sel, q.category);
    FilterIsSubseq(qs, shows);
    if sel == Quotes.All then
      FilterKeepsAll(qs, shows);
      Filter(qs, shows)
    else
      Filter(qs, shows)
  }

  /** After an add or an import, the view is the old view followed by the matching new records. */
  lemma FilterAfterAppend(qs: seq<LegacyQuote>, more: seq<LegacyQuote>, sel: string)
    ensures FilterQuotes(qs + more, sel) == FilterQuotes(qs, sel) + FilterQuotes(more, sel)
  {
    FilterAppend(qs, more, (q: LegacyQuote) => Quotes.Selects(sel, q.category));
  }

  /** The two rule sets compared: over records with the same categories, the full widget's
      category list is this variant's list without the empty category. */
  lemma CategoriesCompared(qs: seq<Quotes.Quote>, ls: seq<LegacyQuote>)
    requires |qs| == |ls|
    requires forall i :: 0 <= i < |qs| ==> qs[i].category == ls[i].category
    ensures Quotes.Categories(qs) == Filter(UniqueCategories(ls), Quotes.NonEmpty)
  {
    assert Quotes.CategoryColumn(qs) == CategoryColumn(ls);
  }

  /** The two rule sets compared on an empty dropdown value: the full widget shows every
      quote, this variant only the quotes with an empty category. */
  lemma EmptySelectionCompared(qs: seq<Quotes.Quote>, ls: seq<LegacyQuote>)
    ensures Quotes.FilterQuotes(qs, []) == qs
    ensures forall q :: q in FilterQuotes(ls, []) <==> q in ls && q.category == []
  {
  }
}
