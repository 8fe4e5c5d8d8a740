/**
 * The `Api` class that main.py exposes to the web frontend: thin guards and
 * argument choices layered on the snippet store.
 */
module Bridge {
  import opened Wrappers
  import opened Catalogue
  import opened Store

  /** `data.get(key)` on the dictionary the frontend sends (its values are strings). */
  function Get(data: map<string, string>, key: string): (r: Option<string>)
    ensures r.Some? <==> key in data
    ensures r.Some? ==> r.value == data[key]
  {
    if key in data then Some(data[key]) else None
  }

  /** Python truthiness of an optional string: present and not empty. */
  predicate Truthy(s: Option<string>): (r: bool)
    ensures r <==> s.Some? && |s.value| > 0
  {
    s.Some? && s.value != ""
  }

  const MissingFieldsMessage := "Missing abbreviation or value."

  /** The language the frontend's strings are always fetched in. */
  const UiLanguage := "en"

  class Api {
    const store: SnippetStore

    constructor (store: SnippetStore)
      ensures this.store == store
    {
      this.store := store;
    }

    /** `search_snippets(text)`: the store's search with the frontend's text. */
    method SearchSnippets(text: string) returns (r: seq<Snippet>)
      requires store.Valid() && store.hasSnippets
      ensures r == Search(store.rows, text)
    {
      r := Search(store.rows, text);
    }

    /** `get_all_snippets()`: the search with its default, empty, filter. */
    method GetAllSnippets() returns (r: seq<Snippet>)
      requires store.Valid() && store.hasSnippets
      ensures r == Search(store.rows, "")
      ensures |store.rows| <= SearchLimit ==> forall x :: x in r <==> x in store.rows
    {
      r := Search(store.rows, "");
      if |store.rows| <= SearchLimit {
        EmptySearchListsAll(store.rows);
      }
    }

    /**
     * `paste_text(abbv)`: one fetch-and-increment; the fetched value is typed
     * (the text handed to `keyboard.write` is returned) only when it is truthy.
     */
    method PasteText(abbv: string) returns (typed: Option<string>)
      requires store.Valid() && store.hasSnippets
      modifies store`rows
      ensures store.Valid()
      ensures store.rows ==
        if Lookup(old(store.rows), abbv).Some? then BumpWhere(old(store.rows), abbv, None) else old(store.rows)
      ensures typed ==
        if Lookup(old(store.rows), abbv).Some? && Lookup(old(store.rows), abbv).value.value != ""
        then Some(Lookup(old(store.rows), abbv).value.value) else None
    {
      var value := store.GetAndIncrementSnippet(abbv);
      typed := if Truthy(value) then value else None;
    }

    /**
     * `add_or_update_snippet(data)`: forwards exactly (abbv, value) to the
     * store's upsert, once, when both are truthy; otherwise reports an error
     * and leaves the store alone.
     */
    method AddOrUpdateSnippet(data: map<string, string>) returns (reply: Reply)
      requires store.Valid() && store.hasSnippets
      modifies store`rows
      ensures store.Valid()
      ensures Truthy(Get(data, "abbv")) && Truthy(Get(data, "value")) ==>
        reply == Success(Some(data["abbv"])) && store.rows == UpsertRows(old(store.rows), data["abbv"], data["value"])
      ensures !(Truthy(Get(data, "abbv")) && Truthy(Get(data, "value"))) ==>
        reply == Error(MissingFieldsMessage) && store.rows == old(store.rows)
    {
      var abbv := Get(data, "abbv");
      var value := Get(data, "value");
      if Truthy(abbv) && Truthy(value) {
        reply := store.AddOrUpdateSnippet(abbv.value, value.value);
      } else {
        reply := Error(MissingFieldsMessage);
      }
    }

    /** `delete_snippet(abbv)`: forwarded unchanged. */
    method DeleteSnippet(abbv: string) returns (reply: Reply)
      requires store.Valid() && store.hasSnippets
      modifies store`rows
      ensures store.Valid()
      ensures store.rows == DeleteRows(old(store.rows), abbv) && reply == Success(None)
    {
      reply := store.DeleteSnippet(abbv);
    }

    /** `get_translations()`: the translations of language "en", whatever the caller. */
    method GetTranslations() returns (r: map<string, string>)
      requires store.Valid() && store.hasTranslations
      ensures r == TranslationsFor(store.translations, UiLanguage)
    {
      r := TranslationsFor(store.translations, UiLanguage);
    }
  }
}
