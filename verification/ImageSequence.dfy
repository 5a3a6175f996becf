/** packages/core/attachments/image-sequence.ts: the images a viewer can page through. */
module ImageSequence {
  import opened Prelude

  datatype Attachment = Attachment(
    id: string, filename: string, contentType: string, size: int,
    url: string, downloadUrl: string, markdownUrl: string)

  /** An inline reference, as the (regular-expression) extractor reports it. */
  datatype Ref = Ref(url: string, filename: string, requiresImageCheck: bool)

  datatype Block = Block(content: string, attachments: seq<Attachment>)

  datatype Item = Item(key: string, url: string, filename: string, attachment: Option<Attachment>)

  /** What other code decides: extraction, URL matching, the image test, textual reference. */
  datatype Recognizers = Recognizers(
    refs: string -> seq<Ref>,
    resolve: (string, seq<Attachment>) -> Option<Attachment>,
    isImage: (string, string) -> bool,
    references: (string, Attachment) -> bool)

  function OrElse(a: string, b: string): string {
    if a != "" then a else b
  }

  // ---------------------------------------------------------------- candidates, in render order

  predicate IsShown(env: Recognizers, attachments: seq<Attachment>, ref: Ref) {
    var a := env.resolve(ref.url, attachments);
    !ref.requiresImageCheck ||
    (if a.Some? then env.isImage(a.value.contentType, a.value.filename)
     else env.isImage("", OrElse(ref.filename, ref.url)))
  }

  function InlineItem(env: Recognizers, attachments: seq<Attachment>, ref: Ref): Item {
    var a := env.resolve(ref.url, attachments);
    if a.None? then Item(ref.url, ref.url, ref.filename, None)
    else Item(a.value.id, OrElse(a.value.downloadUrl, OrElse(a.value.markdownUrl, OrElse(a.value.url, ref.url))),
              OrElse(a.value.filename, ref.filename), a)
  }

  function InlineItems(env: Recognizers, attachments: seq<Attachment>, refs: seq<Ref>): seq<Item> {
    if refs == [] then []
    else InlineItems(env, attachments, refs[..|refs| - 1])
         + (if IsShown(env, attachments, refs[|refs| - 1]) then [InlineItem(env, attachments, refs[|refs| - 1])]
            else [])
  }

  /** Rendered below the body: neither referenced in it nor a re-upload of something that is. */
  predicate IsStandalone(env: Recognizers, block: Block, a: Attachment) {
    block.content == "" ||
    (!env.references(block.content, a) &&
     !exists other :: other in block.attachments && other.id != a.id && other.filename == a.filename
       && other.contentType == a.contentType && other.size == a.size && env.references(block.content, other))
  }

  function StandaloneItems(env: Recognizers, block: Block, attachments: seq<Attachment>): seq<Item> {
    if attachments == [] then []
    else
      var a := attachments[|attachments| - 1];
      StandaloneItems(env, block, attachments[..|attachments| - 1])
      + (if IsStandalone(env, block, a) && env.isImage(a.contentType, a.filename)
         then [Item(a.id, OrElse(a.downloadUrl, OrElse(a.markdownUrl, a.url)), a.filename, Some(a))] else [])
  }

  function Candidates(env: Recognizers, block: Block): seq<Item> {
    InlineItems(env, block.attachments, env.refs(block.content)) + StandaloneItems(env, block, block.attachments)
  }

  function AllCandidates(env: Recognizers, blocks: seq<Option<Block>>): seq<Item> {
    if blocks == [] then []
    else
      var last := blocks[|blocks| - 1];
      AllCandidates(env, blocks[..|blocks| - 1]) + (if last.Some? then Candidates(env, last.value) else [])
  }

  // ---------------------------------------------------------------- first occurrences

  ghost function KeySet(items: seq<Item>): set<string> {
    set i | i in items :: i.key
  }

  /** The candidates with a key that is neither empty, in `seen`, nor earlier in the list. */
  function FirstByKey(seen: set<string>, candidates: seq<Item>): seq<Item>
    decreases |candidates|
  {
    if candidates == [] then []
    else if candidates[0].key == "" || candidates[0].key in seen then FirstByKey(seen, candidates[1..])
    else [candidates[0]] + FirstByKey(seen + {candidates[0].key}, candidates[1..])
  }

  function Collected(env: Recognizers, blocks: seq<Option<Block>>): seq<Item> {
    FirstByKey({}, AllCandidates(env, blocks))
  }

  /** const push = … */
  method PushAll(candidates: seq<Item>, seen0: set<string>, items0: seq<Item>)
    returns (seen: set<string>, items: seq<Item>)
    requires seen0 == KeySet(items0)
    ensures seen == KeySet(items)
    ensures items == items0 + FirstByKey(seen0, candidates)
  {
    seen, items := seen0, items0;
    assert candidates[0..] == candidates;
    for i := 0 to |candidates|
      invariant seen == KeySet(items)
      invariant items + FirstByKey(seen, candidates[i..]) == items0 + FirstByKey(seen0, candidates)
    {
      var item := candidates[i];
      assert candidates[i..][0] == item && candidates[i..][1..] == candidates[i + 1..];
      if item.key == "" || item.key in seen {
        continue;
      }
      KeySetStep(items, item);
      seen := seen + {item.key};
      items := items + [item];
    }
    assert items + [] == items;
  }

  lemma KeySetStep(items: seq<Item>, item: Item)
    ensures KeySet(items + [item]) == KeySet(items) + {item.key}
  {
    assert forall i :: i in items + [item] <==> i in items || i == item;
  }

  method CollectImageSequence(env: Recognizers, blocks: seq<Option<Block>>) returns (items: seq<Item>)
    ensures items == Collected(env, blocks)
  {
    items := [];
    var seen: set<string> := {};
    for i := 0 to |blocks|
      invariant seen == KeySet(items)
      invariant items == Collected(env, blocks[..i])
    {
      assert blocks[..i + 1][..i] == blocks[..i];
      if blocks[i].None? {
        assert AllCandidates(env, blocks[..i + 1]) == AllCandidates(env, blocks[..i]);
        continue;
      }
      FirstByKeyConcat({}, AllCandidates(env, blocks[..i]), Candidates(env, blocks[i].value));
      assert {} + KeySet(items) == seen;
      seen, items := PushAll(Candidates(env, blocks[i].value), seen, items);
    }
    assert blocks[..|blocks|] == blocks;
  }

  // ---------------------------------------------------------------- the sequence as a whole

  lemma {:induction false} FirstByKeyConcat(seen: set<string>, a: seq<Item>, b: seq<Item>)
    ensures FirstByKey(seen, a + b) == FirstByKey(seen, a) + FirstByKey(seen + KeySet(FirstByKey(seen, a)), b)
    decreases |a|
  {
    if a == [] {
      assert a + b == b && seen + KeySet([]) == seen;
    } else {
      assert (a + b)[1..] == a[1..] + b;
      if a[0].key == "" || a[0].key in seen {
        FirstByKeyConcat(seen, a[1..], b);
      } else {
        FirstByKeyConcat(seen + {a[0].key}, a[1..], b);
        var rest := FirstByKey(seen + {a[0].key}, a[1..]);
        assert KeySet([a[0]] + rest) == {a[0].key} + KeySet(rest);
        assert seen + {a[0].key} + KeySet(rest) == seen + KeySet([a[0]] + rest);
      }
    }
  }

  lemma {:induction false} FirstByKeyKeys(seen: set<string>, candidates: seq<Item>)
    ensures forall i :: i in FirstByKey(seen, candidates) ==> i in candidates && i.key != "" && i.key !in seen
    ensures forall c :: c in candidates && c.key != "" && c.key !in seen ==>
      c.key in KeySet(FirstByKey(seen, candidates))
    ensures forall i, j :: 0 <= i < j < |FirstByKey(seen, candidates)| ==>
      FirstByKey(seen, candidates)[i].key != FirstByKey(seen, candidates)[j].key
    decreases |candidates|
  {
    if candidates != [] {
      var c := candidates[0];
      if c.key == "" || c.key in seen {
        FirstByKeyKeys(seen, candidates[1..]);
      } else {
        FirstByKeyKeys(seen + {c.key}, candidates[1..]);
        assert c in FirstByKey(seen, candidates);
      }
    }
  }

  /** Collecting against keys already seen is collecting, then leaving those keys out. */
  lemma {:induction false} SeenLeavesOut(seen: set<string>, more: set<string>, candidates: seq<Item>)
    ensures FirstByKey(seen + more, candidates) == LeaveOut(more, FirstByKey(seen, candidates))
    decreases |candidates|
  {
    if candidates != [] {
      var c := candidates[0];
      if c.key == "" || c.key in seen {
        SeenLeavesOut(seen, more, candidates[1..]);
      } else {
        SeenLeavesOut(seen + {c.key}, more, candidates[1..]);
        var rest := FirstByKey(seen + {c.key}, candidates[1..]);
        assert ([c] + rest)[1..] == rest;
        assert seen + {c.key} + more == seen + more + {c.key};
        if c.key in more {
          assert seen + {c.key} + more == seen + more;
        }
      }
    }
  }

  function LeaveOut(keys: set<string>, items: seq<Item>): seq<Item> {
    if items == [] then []
    else (if items[0].key in keys then [] else [items[0]]) + LeaveOut(keys, items[1..])
  }

  lemma {:induction false} AllCandidatesConcat(env: Recognizers, a: seq<Option<Block>>, b: seq<Option<Block>>)
    ensures AllCandidates(env, a + b) == AllCandidates(env, a) + AllCandidates(env, b)
  {
    if b == [] {
      assert a + b == a;
    } else {
      var last := b[|b| - 1];
      AllCandidatesConcat(env, a, b[..|b| - 1]);
      LastOfConcat(a, b);
      Associative(AllCandidates(env, a), AllCandidates(env, b[..|b| - 1]),
                  if last.Some? then Candidates(env, last.value) else []);
    }
  }

  // ---------------------------------------------------------------- what the candidates of a block are

  ghost predicate FilledAt(texts: seq<string>, i: nat, text: string) {
    && i < |texts| && text == texts[i] && (text != "" || i == |texts| - 1)
    && forall j :: 0 <= j < i ==> texts[j] == ""
  }

  /** The first of the texts that is not empty; the last one if all are. */
  ghost predicate FirstFilled(texts: seq<string>, text: string) {
    exists i: nat :: FilledAt(texts, i, text)
  }

  /**
   * The item of a reference in the body: under the id of the attachment it resolves to, with the
   * best address known for that, or under the address it is written with. A file card is only one
   * if its type or name says that it is an image.
   */
  ghost predicate ShownInline(env: Recognizers, attachments: seq<Attachment>, ref: Ref, item: Item) {
    match env.resolve(ref.url, attachments)
    case Some(a) =>
      && (ref.requiresImageCheck ==> env.isImage(a.contentType, a.filename))
      && item.key == a.id && item.attachment == Some(a)
      && FirstFilled([a.downloadUrl, a.markdownUrl, a.url, ref.url], item.url)
      && FirstFilled([a.filename, ref.filename], item.filename)
    case None =>
      && (ref.requiresImageCheck ==> env.isImage("", if ref.filename == "" then ref.url else ref.filename))
      && item == Item(ref.url, ref.url, ref.filename, None)
  }

  /** Another attachment with the same name, type and size that the body refers to. */
  ghost predicate ReferencedTwin(env: Recognizers, block: Block, a: Attachment, other: Attachment) {
    && other in block.attachments && other.id != a.id && env.references(block.content, other)
    && other.filename == a.filename && other.contentType == a.contentType && other.size == a.size
  }

  /** The item of an image attachment that is shown below the body. */
  ghost predicate ShownBelow(env: Recognizers, block: Block, a: Attachment, item: Item) {
    && a in block.attachments && env.isImage(a.contentType, a.filename)
    && (block.content == "" ||
        (!env.references(block.content, a) && !exists other :: ReferencedTwin(env, block, a, other)))
    && item.key == a.id && item.attachment == Some(a) && item.filename == a.filename
    && FirstFilled([a.downloadUrl, a.markdownUrl, a.url], item.url)
  }

  lemma FilledOfTwo(a: string, b: string, text: string)
    ensures FirstFilled([a, b], text) <==> text == OrElse(a, b)
  {
    assert [a, b][0] == a && [a, b][1] == b;
    if text == OrElse(a, b) {
      assert FilledAt([a, b], if a != "" then 0 else 1, text);
    }
  }

  lemma FilledBehind(a: string, rest: seq<string>, i: nat, text: string)
    requires a == "" && rest != []
    ensures FilledAt([a] + rest, i + 1, text) <==> FilledAt(rest, i, text)
  {
    var texts := [a] + rest;
    assert texts[0] == a && forall j :: 0 <= j < |rest| ==> texts[j + 1] == rest[j];
    if FilledAt(texts, i + 1, text) {
      forall j | 0 <= j < i
        ensures rest[j] == ""
      {
        assert texts[j + 1] == "";
      }
    }
  }

  lemma FilledOfMore(a: string, rest: seq<string>, text: string)
    requires rest != []
    ensures FirstFilled([a] + rest, text) <==> if a != "" then text == a else FirstFilled(rest, text)
  {
    var texts := [a] + rest;
    assert texts[0] == a;
    if a != "" {
      if text == a {
        assert FilledAt(texts, 0, text);
      }
    } else {
      if i: nat :| FilledAt(rest, i, text) {
        FilledBehind(a, rest, i, text);
      }
      if i: nat :| FilledAt(texts, i, text) {
        assert i > 0;
        FilledBehind(a, rest, i - 1, text);
      }
    }
  }

  lemma FilledOfThree(a: string, b: string, c: string, text: string)
    ensures FirstFilled([a, b, c], text) <==> text == OrElse(a, OrElse(b, c))
  {
    assert [a, b, c] == [a] + [b, c];
    FilledOfMore(a, [b, c], text);
    FilledOfTwo(b, c, text);
  }

  lemma FilledOfFour(a: string, b: string, c: string, d: string, text: string)
    ensures FirstFilled([a, b, c, d], text) <==> text == OrElse(a, OrElse(b, OrElse(c, d)))
  {
    assert [a, b, c, d] == [a] + [b, c, d];
    FilledOfMore(a, [b, c, d], text);
    FilledOfThree(b, c, d, text);
  }

  lemma InlineIs(env: Recognizers, attachments: seq<Attachment>, ref: Ref, item: Item)
    ensures IsShown(env, attachments, ref) && item == InlineItem(env, attachments, ref) <==>
      ShownInline(env, attachments, ref, item)
  {
    if env.resolve(ref.url, attachments).Some? {
      var a := env.resolve(ref.url, attachments).value;
      FilledOfFour(a.downloadUrl, a.markdownUrl, a.url, ref.url, item.url);
      FilledOfTwo(a.filename, ref.filename, item.filename);
    }
  }

  lemma {:induction false} InlineMembers(env: Recognizers, attachments: seq<Attachment>, refs: seq<Ref>, item: Item)
    ensures item in InlineItems(env, attachments, refs) <==>
      exists ref :: ref in refs && ShownInline(env, attachments, ref, item)
  {
    if refs != [] {
      InlineMembers(env, attachments, refs[..|refs| - 1], item);
      LastSplit(refs);
      InlineIs(env, attachments, refs[|refs| - 1], item);
    }
  }

  lemma StandaloneIff(env: Recognizers, block: Block, a: Attachment)
    ensures IsStandalone(env, block, a) <==>
      block.content == "" ||
      (!env.references(block.content, a) && !exists other :: ReferencedTwin(env, block, a, other))
  {
    forall other
      ensures ReferencedTwin(env, block, a, other) <==>
        other in block.attachments && other.id != a.id && other.filename == a.filename
        && other.contentType == a.contentType && other.size == a.size && env.references(block.content, other)
    {
    }
  }

  lemma BelowIs(env: Recognizers, block: Block, a: Attachment, item: Item)
    requires a in block.attachments
    ensures IsStandalone(env, block, a) && env.isImage(a.contentType, a.filename)
              && item == Item(a.id, OrElse(a.downloadUrl, OrElse(a.markdownUrl, a.url)), a.filename, Some(a))
            <==> ShownBelow(env, block, a, item)
  {
    StandaloneIff(env, block, a);
    FilledOfThree(a.downloadUrl, a.markdownUrl, a.url, item.url);
  }

  lemma {:induction false} StandaloneMembers(env: Recognizers, block: Block, attachments: seq<Attachment>, item: Item)
    requires forall a :: a in attachments ==> a in block.attachments
    ensures item in StandaloneItems(env, block, attachments) <==>
      exists a :: a in attachments && ShownBelow(env, block, a, item)
  {
    if attachments != [] {
      LastSplit(attachments);
      StandaloneMembers(env, block, attachments[..|attachments| - 1], item);
      BelowIs(env, block, attachments[|attachments| - 1], item);
    }
  }

  /** A block shows exactly the images its body refers to and the image attachments below it. */
  lemma CandidatesIff(env: Recognizers, block: Block, item: Item)
    ensures item in Candidates(env, block) <==>
      || (exists ref :: ref in env.refs(block.content) && ShownInline(env, block.attachments, ref, item))
      || (exists a :: a in block.attachments && ShownBelow(env, block, a, item))
  {
    InlineMembers(env, block.attachments, env.refs(block.content), item);
    StandaloneMembers(env, block, block.attachments, item);
  }

  lemma {:induction false} InlineConcat(env: Recognizers, attachments: seq<Attachment>, a: seq<Ref>, b: seq<Ref>)
    ensures InlineItems(env, attachments, a + b) == InlineItems(env, attachments, a) + InlineItems(env, attachments, b)
  {
    if b == [] {
      NothingMore(a);
      NothingMore(InlineItems(env, attachments, a));
    } else {
      var last := b[|b| - 1];
      InlineConcat(env, attachments, a, b[..|b| - 1]);
      LastOfConcat(a, b);
      Associative(InlineItems(env, attachments, a), InlineItems(env, attachments, b[..|b| - 1]),
                  if IsShown(env, attachments, last) then [InlineItem(env, attachments, last)] else []);
    }
  }

  lemma {:induction false} StandaloneConcat(env: Recognizers, block: Block, a: seq<Attachment>, b: seq<Attachment>)
    ensures StandaloneItems(env, block, a + b) == StandaloneItems(env, block, a) + StandaloneItems(env, block, b)
  {
    if b == [] {
      NothingMore(a);
      NothingMore(StandaloneItems(env, block, a));
    } else {
      StandaloneConcat(env, block, a, b[..|b| - 1]);
      LastOfConcat(a, b);
      var items := StandaloneItems(env, block, b);
      var front := StandaloneItems(env, block, b[..|b| - 1]);
      assert front <= items;
      Associative(StandaloneItems(env, block, a), front, items[|front|..]);
      assert items == front + items[|front|..];
    }
  }

  /**
   * Render order inside a block: the images of the body, in the order of the references, then those
   * of the attachments below it, in the order of the attachments.
   */
  lemma CandidatesInRenderOrder(env: Recognizers, block: Block, a: seq<Ref>, b: seq<Ref>,
                                c: seq<Attachment>, d: seq<Attachment>)
    requires env.refs(block.content) == a + b && block.attachments == c + d
    ensures Candidates(env, block) ==
      InlineItems(env, c + d, a) + InlineItems(env, c + d, b)
        + (StandaloneItems(env, block, c) + StandaloneItems(env, block, d))
  {
    InlineConcat(env, c + d, a, b);
    StandaloneConcat(env, block, c, d);
  }

  // ---------------------------------------------------------------- collecting block after block

  /** More blocks only add images at the end: B's, without those A already shows. */
  lemma CollectingConcatenates(env: Recognizers, a: seq<Option<Block>>, b: seq<Option<Block>>)
    ensures Collected(env, a + b) == Collected(env, a) + LeaveOut(KeySet(Collected(env, a)), Collected(env, b))
  {
    AllCandidatesConcat(env, a, b);
    FirstByKeyConcat({}, AllCandidates(env, a), AllCandidates(env, b));
    SeenLeavesOut({}, KeySet(Collected(env, a)), AllCandidates(env, b));
  }

  function IndexOfImageKey(items: seq<Item>, key: string): int {
    if key == "" then -1 else FindKey(items, key, 0)
  }

  function FindKey(items: seq<Item>, key: string, from: nat): (r: int)
    requires from <= |items|
    ensures r == -1 || (from <= r < |items| && items[r].key == key)
    ensures r == -1 ==> forall k :: from <= k < |items| ==> items[k].key != key
    ensures r != -1 ==> forall k :: from <= k < r ==> items[k].key != key
    decreases |items| - from
  {
    if from == |items| then -1 else if items[from].key == key then from else FindKey(items, key, from + 1)
  }

  /** Looking a key up inverts indexing, and finds exactly the keys of the sequence. */
  lemma IndexInverts(env: Recognizers, blocks: seq<Option<Block>>, i: nat, key: string)
    requires i < |Collected(env, blocks)|
    ensures IndexOfImageKey(Collected(env, blocks), Collected(env, blocks)[i].key) == i
    ensures IndexOfImageKey(Collected(env, blocks), key) == -1
       <==> key !in KeySet(AllCandidates(env, blocks)) || key == ""
  {
    var items := Collected(env, blocks);
    FirstByKeyKeys({}, AllCandidates(env, blocks));
    assert items[i] in items;
  }
}
