/** The quote records of the full widget (dom-manipulation/script.js) and the list logic that
    its DOM handlers run over them: validating a new quote, the category projection, the
    restored filter selection, filtering, and turning imported JSON elements into quotes. */
module Quotes {
  import opened Wrappers
  import opened Seqs
  import opened JsText

  /** A quote record `{id, text, category}`. An `id` of 0 stands for a JavaScript id that is
      missing or falsy, the case in which the widget's `||` fallbacks apply. */
  datatype Quote = Quote(id: nat, text: string, category: string)

  /** The dropdown value that means "no filter". */
  const All: string := "all"
  /** The category given to a quote added with a blank category. */
  const Uncategorized: string := "Uncategorized"
  /** The category given to an imported element without one. */
  const ImportedCategory: string := "Imported"

  /** The store the page starts with when `localStorage` holds no quotes. */
  const DefaultQuotes: seq<Quote> :=
    [ Quote(1, "The best way to predict the future is to create it.", "Motivation"),
      Quote(2, "Do one thing every day that scares you.", "Courage"),
      Quote(3, "Everything you can imagine is real.", "Creativity") ]

  /** No two records share an id. */
  predicate UniqueIds(qs: seq<Quote>) {
    forall i, j :: 0 <= i < j < |qs| ==> qs[i].id != qs[j].id
  }

  /** `Math.max(...qs.map(x => x.id))` on a non-empty store. */
  function MaxId(qs: seq<Quote>): (m: nat)
    requires qs != []
    ensures forall i :: 0 <= i < |qs| ==> qs[i].id <= m
    ensures exists i :: 0 <= i < |qs| && qs[i].id == m
    decreases |qs|
  {
    if |qs| == 1 then qs[0].id
    else
      var rest := MaxId(qs[1..]);
      if qs[0].id >= rest then qs[0].id else rest
  }

  /** The id the widget gives a new quote: one more than the largest id in the store, or 1
      for an empty store. It is positive and larger than every id in use, and no larger than
      it needs to be. */
  function NextId(qs: seq<Quote>): (id: nat)
    ensures id >= 1
    ensures forall i :: 0 <= i < |qs| ==> qs[i].id < id
    ensures qs != [] ==> exists i :: 0 <= i < |qs| && qs[i].id == id - 1
    ensures qs == [] ==> id == 1
  {
    if |qs| > 0 then MaxId(qs) + 1 else 1
  }

  /** The quote `addQuote` appends for the two form inputs, or None when the trimmed text is
      empty (the widget alerts and changes nothing). */
  function NewQuote(qs: seq<Quote>, textInput: string, categoryInput: string): (r: Option<Quote>)
    ensures r.None? <==> Blank(textInput)
    ensures r.Some? ==> r.value.text == Trim(textInput) && r.value.text != []
    ensures r.Some? && !Blank(categoryInput) ==> r.value.category == Trim(categoryInput)
    ensures r.Some? && Blank(categoryInput) ==> r.value.category == Uncategorized
    ensures r.Some? ==> r.value.category != [] && r.value.id >= 1
    ensures r.Some? ==> forall i :: 0 <= i < |qs| ==> qs[i].id < r.value.id
    ensures r.Some? ==> r.value.id == NextId(qs)
  {
    var text := Trim(textInput);
    var trimmedCategory := Trim(categoryInput);
    var category := if trimmedCategory != [] then trimmedCategory else Uncategorized;
    if text == [] then None else Some(Quote(NextId(qs), text, category))
  }

  /** Adding a quote keeps ids unique, and the new id is not reused by any earlier record. */
  lemma AddKeepsIdsUnique(qs: seq<Quote>, textInput: string, categoryInput: string)
    requires UniqueIds(qs)
    requires NewQuote(qs, textInput, categoryInput).Some?
    ensures UniqueIds(qs + [NewQuote(qs, textInput, categoryInput).value])
  {
    var q := NewQuote(qs, textInput, categoryInput).value;
    var s := qs + [q];
    forall i, j | 0 <= i < j < |s| ensures s[i].id != s[j].id {
      assert s[i] == qs[i];
      if j < |qs| {
        assert s[j] == qs[j];
      }
    }
  }

  /** The category of a record. */
  function CategoryOf(q: Quote): string {
    q.category
  }

  /** The category of every record, in store order (`qs.map(q => q.category)`). */
  function CategoryColumn(qs: seq<Quote>): seq<string> {
    Map(qs, CategoryOf)
  }

  /** `Boolean` on a string: whether it is non-empty. */
  predicate NonEmpty(c: string) {
    c != []
  }

  /** The category list `populateCategories` stores and offers in the dropdown:
      `[...new Set(categories)].filter(Boolean)`. Each non-empty category of the store occurs
      exactly once, nothing else occurs, and the order is that of first occurrence. */
  function Categories(qs: seq<Quote>): (cats: seq<string>)
    ensures NoDup(cats)
    ensures forall c :: c in cats <==> c != [] && c in CategoryColumn(qs)
    ensures forall i, j :: 0 <= i < j < |cats| ==>
      FirstIndex(CategoryColumn(qs), cats[i]) < FirstIndex(CategoryColumn(qs), cats[j])
  {
    var column := CategoryColumn(qs);
    var unique := Distinct(column);
    DistinctFirstSeenOrder(column);
    FilterNoDup(unique, NonEmpty);
    var earlier := (a: string, b: string) => FirstIndex(column, a) < FirstIndex(column, b);
    FilterKeepsPairwise(unique, NonEmpty, earlier);
    var cats := Filter(unique, NonEmpty);
    assert forall c :: c in cats <==> c != [] && c in column by {
      forall c ensures c in cats <==> c != [] && c in column {
        if c in column {
          var i :| 0 <= i < |column| && column[i] == c;
          assert c in unique;
        }
        if c in cats {
          var i :| 0 <= i < |cats| && cats[i] == c;
        }
        if c in unique {
          var i :| 0 <= i < |unique| && unique[i] == c;
        }
      }
    }
    cats
  }

  /** Adding a record with an already listed (or empty) category leaves the category list as
      it is; a new non-empty category is appended at the end. */
  lemma {:induction false} CategoriesAfterAdd(qs: seq<Quote>, q: Quote)
    ensures Categories(qs + [q]) ==
      if q.category == [] || q.category in Categories(qs) then Categories(qs) else Categories(qs) + [q.category]
  {
    var column := CategoryColumn(qs);
    var column' := CategoryColumn(qs + [q]);
    assert column' == column + [q.category];
    assert column'[..|column'| - 1] == column;
    var unique := Distinct(column);
    FilterAppend(unique, [q.category], NonEmpty);
    if q.category in Categories(qs) {
      assert q.category in column;
    }
    if q.category != [] && q.category in column {
      assert q.category in Categories(qs);
    }
  }

  /** JavaScript's `a || b` on strings: `a` unless it is empty. */
  function OrElse(a: string, b: string): string {
    if a != [] then a else b
  }

  /** The dropdown value `populateCategories` restores: the saved selection from
      `localStorage` (when present and non-empty), otherwise the previous dropdown value
      (or "all"), kept only when it is "all" or one of the listed categories. */
  function SelectedFilter(cats: seq<string>, previous: string, saved: Option<string>): (sel: string)
    ensures sel == All || sel in cats
    ensures sel == All || sel == previous || (saved.Some? && sel == saved.value)
    ensures saved.Some? && saved.value != [] && (saved.value == All || saved.value in cats) ==> sel == saved.value
    ensures (saved.None? || saved.value == []) && previous != [] && (previous == All || previous in cats) ==> sel == previous
    ensures saved.Some? && saved.value != [] && saved.value != All && saved.value !in cats ==> sel == All
  {
    var prev := OrElse(previous, All);
    var wanted := match saved case Some(v) => OrElse(v, prev) case None => prev;
    if wanted == All || wanted in cats then wanted else All
  }

  /** A selection that is offered stays selected when a quote is added: adding never removes
      a category from the list. */
  lemma SelectionSurvivesAdd(qs: seq<Quote>, q: Quote, sel: string)
    requires sel in Categories(qs)
    ensures SelectedFilter(Categories(qs + [q]), sel, Some(sel)) == sel
  {
    CategoriesAfterAdd(qs, q);
  }

  /** Whether a quote of `category` is shown under dropdown value `sel` (`sel === "all" || q.category === sel`). */
  predicate Selects(sel: string, category: string) {
    sel == All || category == sel
  }

  /** `filterQuotes`: the quotes shown under the dropdown value (an empty value reads as
      "all"). Under "all" that is the whole store; otherwise exactly the quotes of that
      category, as a subsequence of the store, so in store order. */
  function FilterQuotes(qs: seq<Quote>, dropdownValue: string): (shown: seq<Quote>)
    ensures dropdownValue == [] || dropdownValue == All ==> shown == qs
    ensures dropdownValue != [] && dropdownValue != All ==>
      forall q :: q in shown <==> q in qs && q.category == dropdownValue
    ensures IsSubseq(shown, qs)
  {
    var sel := OrElse(dropdownValue, All);
    var shows := (q: Quote) => Selects(sel, q.category);
    FilterIsSubseq(qs, shows);
    if sel == All then
      FilterKeepsAll(qs, shows);
      Filter(qs, shows)
    else
      Filter(qs, shows)
  }

  /** Re-rendering after an add: the new quote shows up at the end exactly when it matches. */
  lemma FilterAfterAdd(qs: seq<Quote>, q: Quote, dropdownValue: string)
    ensures FilterQuotes(qs + [q], dropdownValue) ==
      FilterQuotes(qs, dropdownValue) + (if Selects(OrElse(dropdownValue, All), q.category) then [q] else [])
  {
    var sel := OrElse(dropdownValue, All);
    var shows := (q': Quote) => Selects(sel, q'.category);
    FilterAppend(qs, [q], shows);
    assert Filter([q], shows) == if shows(q) then [q] else [];
  }

  /** Filtering what is already filtered changes nothing. */
  lemma FilterQuotesIdempotent(qs: seq<Quote>, dropdownValue: string)
    ensures FilterQuotes(FilterQuotes(qs, dropdownValue), dropdownValue) == FilterQuotes(qs, dropdownValue)
  {
    var sel := OrElse(dropdownValue, All);
    FilterIdempotent(qs, (q: Quote) => Selects(sel, q.category));
  }

  /** One element of an imported JSON array. `NullElement` is `null` (reading its fields throws);
      any other element is read field by field, a missing or falsy field being 0 or "". */
  datatype ImportElement =
    | NullElement
    | Element(id: nat, text: string, title: string, category: string)

  /** The parsed file: a JSON array, or anything else (including text that does not parse). */
  datatype ImportPayload = NotAnArray | Elements(items: seq<ImportElement>)

  /** The record built for element `i` of an import whose fallback ids start at `nextId`:
      the element's own id, text (or title) and category where present, otherwise a fresh id,
      a numbered placeholder text and the "Imported" category. */
  function ImportedQuote(e: ImportElement, nextId: nat, i: nat): (q: Quote)
    requires e.Element? && nextId >= 1
    ensures q.id >= 1 && q.text != [] && q.category != []
    ensures e.id != 0 ==> q.id == e.id
    ensures e.id == 0 ==> q.id == nextId + i
    ensures e.text != [] ==> q.text == e.text
    ensures e.text == [] && e.title != [] ==> q.text == e.title
    ensures e.text == [] && e.title == [] ==> q.text == "Imported quote " + DecimalString(i + 1)
    ensures e.category != [] ==> q.category == e.category
    ensures e.category == [] ==> q.category == ImportedCategory
  {
    Quote(if e.id != 0 then e.id else nextId + i,
          OrElse(OrElse(e.text, e.title), "Imported quote " + DecimalString(i + 1)),
          OrElse(e.category, ImportedCategory))
  }

  /** How many leading elements can be read before a `null` element stops the import. */
  function ReadablePrefix(items: seq<ImportElement>): (n: nat)
    ensures n <= |items|
    ensures forall i :: 0 <= i < n ==> items[i].Element?
    ensures n < |items| ==> items[n].NullElement?
    decreases |items|
  {
    if items == [] || items[0].NullElement? then 0 else 1 + ReadablePrefix(items[1..])
  }

  /** The records an import appends for the readable elements `items[..n]`, in order. */
  function ImportedQuotes(items: seq<ImportElement>, n: nat, nextId: nat): (qs: seq<Quote>)
    requires n <= |items| && nextId >= 1
    requires forall i :: 0 <= i < n ==> items[i].Element?
    ensures |qs| == n
  {
    seq(n, i requires 0 <= i < n => ImportedQuote(items[i], nextId, i))
  }

  /** One more readable element appends one more record. */
  lemma ImportedQuotesStep(items: seq<ImportElement>, n: nat, nextId: nat)
    requires n < |items| && nextId >= 1
    requires forall i :: 0 <= i <= n ==> items[i].Element?
    ensures ImportedQuotes(items, n + 1, nextId) == ImportedQuotes(items, n, nextId) + [ImportedQuote(items[n], nextId, n)]
  {
  }

  /** Fallback ids of an import are fresh: none is in use in the store, and no two
      elements that lack an id get the same one. */
  lemma ImportFallbackIdsFresh(qs: seq<Quote>, items: seq<ImportElement>)
    requires forall i :: 0 <= i < |items| ==> items[i].Element?
    ensures var imported := ImportedQuotes(items, |items|, NextId(qs));
      && (forall i, k :: 0 <= i < |imported| && 0 <= k < |qs| && items[i].id == 0 ==> imported[i].id != qs[k].id)
      && (forall i, j :: 0 <= i < j < |imported| && items[i].id == 0 && items[j].id == 0 ==> imported[i].id != imported[j].id)
  {
  }
}
