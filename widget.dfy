/** The full widget's in-memory store (`quotesArray` in dom-manipulation/script.js) and the
    handlers that change it: adding a quote, importing a parsed JSON file, and the three
    ways of resolving a conflict with the server. Saving to `localStorage`, re-rendering and
    status messages that follow each change are left to the page. */
module Widget {
  import opened Wrappers
  import opened Seqs
  import opened JsText
  import opened Quotes
  import opened Sync

  class QuoteStore {
    /** The quotes, in display order. */
    var quotes: seq<Quote>

    /** Page load: the array stored under "Quotes", or the three default quotes when there is none. */
    constructor (stored: Option<seq<Quote>>)
      ensures stored.Some? ==> quotes == stored.value
      ensures stored.None? ==> quotes == DefaultQuotes
    {
      if stored.Some? {
        quotes := stored.value;
      } else {
        quotes := DefaultQuotes;
      }
    }

    /** `addQuote`: a blank text is rejected with the store unchanged; otherwise the new quote
        (trimmed text, trimmed or default category, id one above the largest) is appended and
        every earlier record stays as it was. Unique ids stay unique. */
    method AddQuote(textInput: string, categoryInput: string) returns (added: bool)
      modifies this
      ensures added <==> !Blank(textInput)
      ensures !added ==> quotes == old(quotes)
      ensures added ==> quotes == old(quotes) + [NewQuote(old(quotes), textInput, categoryInput).value]
      ensures UniqueIds(old(quotes)) ==> UniqueIds(quotes)
    {
      var r := NewQuote(quotes, textInput, categoryInput);
      if r.None? {
        return false;
      }
      if UniqueIds(quotes) {
        AddKeepsIdsUnique(quotes, textInput, categoryInput);
      }
      quotes := quotes + [r.value];
      return true;
    }

    /** `importFromJsonFile`'s `onload`: anything but an array is rejected with the store
        unchanged. Otherwise element i is appended as `ImportedQuote(item, nextId, i)`, where
        `nextId` is computed once, before the loop. A `null` element makes reading its fields
        throw: the import reports failure, and the elements before it stay appended. */
    method ImportFromJsonFile(payload: ImportPayload) returns (ok: bool)
      modifies this
      ensures payload.NotAnArray? ==> !ok && quotes == old(quotes)
      ensures payload.Elements? ==>
        var n := ReadablePrefix(payload.items);
        && quotes == old(quotes) + ImportedQuotes(payload.items, n, NextId(old(quotes)))
        && (ok <==> n == |payload.items|)
    {
      if payload.NotAnArray? {
        return false;
      }
      var items := payload.items;
      var nextId := NextId(quotes);
      ghost var before := quotes;
      ghost var n := ReadablePrefix(items);
      var i := 0;
      while i < |items|
        invariant 0 <= i <= n
        invariant quotes == before + ImportedQuotes(items, i, nextId)
      {
        var item := items[i];
        if item.NullElement? {
          return false;
        }
        ImportedQuotesStep(items, i, nextId);
        quotes := quotes + [ImportedQuote(item, nextId, i)];
        i := i + 1;
      }
      return true;
    }

    /** `onUseServer`: the store becomes a copy of the server list. */
    method UseServer(serverData: seq<Quote>)
      modifies this
      ensures quotes == serverData
    {
      quotes := serverData;
    }

    /** `onKeepLocal`: the local store stays the source of truth; only storage is rewritten. */
    method KeepLocal()
      ensures quotes == old(quotes)
    {
    }

    /** `onMerge`: the store becomes the union by text of the server list and the local store,
        with ids 1..n and no text twice. */
    method Merge(serverData: seq<Quote>)
      modifies this
      ensures quotes == Merged(old(quotes), serverData)
      ensures NoDup(Texts(quotes)) && forall j :: 0 <= j < |quotes| ==> quotes[j].id == j + 1
    {
      MergedShape(quotes, serverData);
      quotes := MergeQuotes(quotes, serverData);
    }
  }
}
