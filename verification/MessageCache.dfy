/**
 * packages/core/chat/message-cache.ts: the one door through which a settled chat message
 * enters the flat and the paged cache of its session.
 */
module MessageCache {
  import opened Prelude

  /** Any defined field value, null included. */
  type Value = string

  /** A row's own properties besides `id`; None is a property that is explicitly undefined. */
  datatype Message = Message(id: string, fields: map<string, Option<Value>>)

  /** The paging fields of a page, which an upsert keeps. */
  datatype Paging = Paging(limit: nat, hasMore: bool, nextCursor: Option<string>)

  /** A page of history. */
  datatype Page = Page(messages: seq<Message>, paging: Paging)

  /** The paging fields of a page that was never fetched. */
  const SEED_PAGING := Paging(50, false, None)

  /** The fields a row defines. */
  function Defined(m: Message): map<string, Value> {
    map k | k in m.fields && m.fields[k].Some? :: m.fields[k].value
  }

  // ---------------------------------------------------------------- merging rows

  function Fills(existing: Message, incoming: Message): map<string, Option<Value>> {
    map k | k in incoming.fields && incoming.fields[k].Some? && (k !in existing.fields || existing.fields[k].None?) ::
      incoming.fields[k]
  }

  function Merge(existing: Message, incoming: Message): Message {
    existing.(fields := existing.fields + Fills(existing, incoming))
  }

  /** for (const key of Object.keys(incoming)) … */
  method MergeChatMessage(existing: Message, incoming: Message) returns (r: Message)
    ensures r == Merge(existing, incoming)
  {
    var fills: map<string, Option<Value>> := map[];
    var filled := false;
    var keys := incoming.fields.Keys;
    while keys != {}
      invariant keys <= incoming.fields.Keys
      invariant fills == map k | k in Fills(existing, incoming) && k !in keys :: Fills(existing, incoming)[k]
      invariant filled <==> fills != map[]
      decreases keys
    {
      var key :| key in keys;
      keys := keys - {key};
      if (key in existing.fields && existing.fields[key].Some?) || incoming.fields[key].None? {
        continue;
      }
      fills := fills[key := incoming.fields[key]];
      assert key in fills;
      filled := true;
    }
    assert fills == Fills(existing, incoming);
    return if filled then existing.(fields := existing.fields + fills) else existing;
  }

  /** The row in the cache wins every field it defines; the incoming row fills the gaps. */
  lemma MergeIsLeftUnion(existing: Message, incoming: Message)
    ensures Merge(existing, incoming).id == existing.id
    ensures Defined(Merge(existing, incoming)) == Defined(incoming) + Defined(existing)
    ensures Merge(existing, incoming) == existing <==> Defined(incoming).Keys <= Defined(existing).Keys
  {
    if Merge(existing, incoming) == existing {
      forall k | k in Defined(incoming)
        ensures k in Defined(existing)
      {
        assert k in Fills(existing, incoming) ==> k in existing.fields + Fills(existing, incoming);
      }
    } else {
      assert Fills(existing, incoming) != map[];
      var k :| k in Fills(existing, incoming);
      assert k in Defined(incoming) && k !in Defined(existing);
    }
  }

  // ---------------------------------------------------------------- lists and pages

  function FindIndex(ms: seq<Message>, id: string): (r: Option<nat>)
    ensures r.Some? ==> r.value < |ms| && ms[r.value].id == id && forall k :: 0 <= k < r.value ==> ms[k].id != id
    ensures r.None? ==> forall k :: 0 <= k < |ms| ==> ms[k].id != id
  {
    if ms == [] then None
    else if ms[0].id == id then Some(0)
    else
      var rest := FindIndex(ms[1..], id);
      if rest.Some? then Some(rest.value + 1) else None
  }

  predicate Has(ms: seq<Message>, id: string) {
    exists m :: m in ms && m.id == id
  }

  function MergeIntoList(ms: seq<Message>, m: Message): seq<Message> {
    var index := FindIndex(ms, m.id);
    if index.None? then ms
    else
      var merged := Merge(ms[index.value], m);
      if merged == ms[index.value] then ms else ms[index.value := merged]
  }

  function UpsertIntoList(ms: seq<Message>, m: Message): seq<Message> {
    var merged := MergeIntoList(ms, m);
    if merged != ms then merged
    else if Has(ms, m.id) then ms
    else ms + [m]
  }

  function MergeIntoPages(pages: seq<Page>, m: Message): seq<Page> {
    if pages == [] then []
    else MergeIntoPages(pages[..|pages| - 1], m)
         + [pages[|pages| - 1].(messages := MergeIntoList(pages[|pages| - 1].messages, m))]
  }

  predicate Seen(pages: seq<Page>, id: string) {
    exists page :: page in pages && Has(page.messages, id)
  }

  function UpsertPages(pages: seq<Page>, m: Message): seq<Page> {
    if Seen(pages, m.id) then MergeIntoPages(pages, m)
    else if pages == [] then []
    else pages[0 := pages[0].(messages := pages[0].messages + [m])]
  }

  lemma PagesStep(pages: seq<Page>, m: Message, i: nat)
    requires i < |pages|
    ensures pages[..i + 1] == pages[..i] + [pages[i]]
    ensures MergeIntoPages(pages[..i + 1], m)
         == MergeIntoPages(pages[..i], m) + [pages[i].(messages := MergeIntoList(pages[i].messages, m))]
  {
    assert pages[..i + 1][..i] == pages[..i];
  }

  /** data.pages.map(…), with the `changed` flag. */
  method UpsertIntoPages(pages: seq<Page>, m: Message) returns (r: seq<Page>)
    ensures r == UpsertPages(pages, m)
  {
    if Seen(pages, m.id) {
      var changed := false;
      var out: seq<Page> := [];
      for i := 0 to |pages|
        invariant out == MergeIntoPages(pages[..i], m)
        invariant !changed ==> out == pages[..i]
      {
        PagesStep(pages, m, i);
        var next := MergeIntoList(pages[i].messages, m);
        if next == pages[i].messages {
          out := out + [pages[i]];
        } else {
          changed := true;
          out := out + [pages[i].(messages := next)];
        }
      }
      assert pages[..|pages|] == pages;
      return if changed then out else pages;
    }
    if pages == [] {
      return [];
    }
    return [pages[0].(messages := pages[0].messages + [m])] + pages[1..];
  }

  // ---------------------------------------------------------------- both caches

  function FlatUpsert(cached: Option<seq<Message>>, m: Message, seed: bool): Option<seq<Message>> {
    if cached.None? then (if seed then Some([m]) else None) else Some(UpsertIntoList(cached.value, m))
  }

  function PagedUpsert(cached: Option<seq<Page>>, m: Message, seed: bool): Option<seq<Page>> {
    if cached.None? || cached.value == [] then (if seed then Some([Page([m], SEED_PAGING)]) else cached)
    else Some(UpsertPages(cached.value, m))
  }

  function Lookup<T>(cache: map<string, T>, session: string): Option<T> {
    if session in cache then Some(cache[session]) else None
  }

  /** The two message caches of the query client, by session. */
  class QueryClient {
    var messages: map<string, seq<Message>>
    var messagesPage: map<string, seq<Page>>

    method UpsertChatMessageToCaches(session: string, m: Message, seedIfMissing: bool)
      modifies this
      ensures Lookup(messages, session) == FlatUpsert(old(Lookup(messages, session)), m, seedIfMissing)
      ensures Lookup(messagesPage, session) == PagedUpsert(old(Lookup(messagesPage, session)), m, seedIfMissing)
      ensures messages - {session} == old(messages) - {session}
      ensures messagesPage - {session} == old(messagesPage) - {session}
    {
      if session in messages {
        messages := messages[session := UpsertIntoList(messages[session], m)];
      } else if seedIfMissing {
        messages := messages[session := [m]];
      }
      if session !in messagesPage || messagesPage[session] == [] {
        if seedIfMissing {
          messagesPage := messagesPage[session := [Page([m], SEED_PAGING)]];
        }
      } else {
        var pages := UpsertIntoPages(messagesPage[session], m);
        messagesPage := messagesPage[session := pages];
      }
    }
  }
}
