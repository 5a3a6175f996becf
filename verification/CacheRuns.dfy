/** When the two message caches stay one transcript, and when the order of arrival does not matter. */
module CacheRuns {
  import opened Prelude
  import opened MessageCache

  // ---------------------------------------------------------------- lists

  ghost predicate DistinctIds(ms: seq<Message>) {
    forall i, j :: 0 <= i < j < |ms| ==> ms[i].id != ms[j].id
  }

  lemma HasIff(ms: seq<Message>, id: string)
    ensures Has(ms, id) <==> FindIndex(ms, id).Some?
  {
    if Has(ms, id) {
      var m :| m in ms && m.id == id;
    }
  }

  lemma {:induction false} FindInConcat(a: seq<Message>, b: seq<Message>, id: string)
    ensures FindIndex(a + b, id) ==
      if FindIndex(a, id).Some? then FindIndex(a, id)
      else if FindIndex(b, id).Some? then Some(|a| + FindIndex(b, id).value)
      else None
  {
    if a == [] {
      assert a + b == b;
    } else {
      FindInConcat(a[1..], b, id);
      FirstOff(a, b);
    }
  }

  lemma UpdateFront<T>(a: seq<T>, b: seq<T>, i: nat, x: T)
    requires i < |a|
    ensures (a + b)[i := x] == a[i := x] + b && (a + b)[i] == a[i]
  {
  }

  lemma UpdateBack<T>(a: seq<T>, b: seq<T>, i: nat, x: T)
    requires i < |b|
    ensures (a + b)[|a| + i := x] == a + b[i := x] && (a + b)[|a| + i] == b[i]
  {
  }

  /** Merging in both halves is merging in the whole, as long as one half lacks the id. */
  lemma MergeInConcat(a: seq<Message>, b: seq<Message>, m: Message)
    requires FindIndex(a, m.id).None? || FindIndex(b, m.id).None?
    ensures MergeIntoList(a + b, m) == MergeIntoList(a, m) + MergeIntoList(b, m)
  {
    FindInConcat(a, b, m.id);
    if FindIndex(a, m.id).Some? {
      var i := FindIndex(a, m.id).value;
      UpdateFront(a, b, i, Merge(a[i], m));
    } else if FindIndex(b, m.id).Some? {
      var i := FindIndex(b, m.id).value;
      UpdateBack(a, b, i, Merge(b[i], m));
    }
  }

  lemma UpsertCases(ms: seq<Message>, m: Message)
    ensures UpsertIntoList(ms, m) == if FindIndex(ms, m.id).Some? then MergeIntoList(ms, m) else ms + [m]
  {
    HasIff(ms, m.id);
  }

  lemma UpsertKeepsDistinct(ms: seq<Message>, m: Message)
    requires DistinctIds(ms)
    ensures DistinctIds(UpsertIntoList(ms, m))
  {
    UpsertCases(ms, m);
  }

  // ---------------------------------------------------------------- pages oldest to newest

  /** Page 0 is the newest window. */
  function Transcript(pages: seq<Page>): seq<Message> {
    if pages == [] then [] else pages[|pages| - 1].messages + Transcript(pages[..|pages| - 1])
  }

  lemma {:induction false} SeenIff(pages: seq<Page>, id: string)
    ensures Seen(pages, id) <==> FindIndex(Transcript(pages), id).Some?
  {
    if pages != [] {
      var front, last := pages[..|pages| - 1], pages[|pages| - 1];
      assert pages == front + [last];
      SeenIff(front, id);
      HasIff(last.messages, id);
      FindInConcat(last.messages, Transcript(front), id);
      assert Seen(pages, id) <==> Seen(front, id) || Has(last.messages, id) by {
        if Has(last.messages, id) {
          assert last in pages;
        }
      }
    }
  }

  lemma DistinctHalves(a: seq<Message>, b: seq<Message>, id: string)
    requires DistinctIds(a + b)
    ensures DistinctIds(a) && DistinctIds(b)
    ensures FindIndex(a, id).None? || FindIndex(b, id).None?
  {
    assert forall k :: 0 <= k < |a| ==> (a + b)[k] == a[k];
    assert forall k :: 0 <= k < |b| ==> (a + b)[|a| + k] == b[k];
  }

  lemma {:induction false} MergedTranscript(pages: seq<Page>, m: Message)
    requires DistinctIds(Transcript(pages))
    ensures Transcript(MergeIntoPages(pages, m)) == MergeIntoList(Transcript(pages), m)
  {
    if pages != [] {
      var front, last := pages[..|pages| - 1], pages[|pages| - 1];
      DistinctHalves(last.messages, Transcript(front), m.id);
      MergedTranscript(front, m);
      MergeInConcat(last.messages, Transcript(front), m);
      var r := MergeIntoPages(pages, m);
      assert r[..|r| - 1] == MergeIntoPages(front, m);
    }
  }

  lemma {:induction false} AppendedTranscript(pages: seq<Page>, m: Message)
    requires pages != []
    ensures Transcript(pages[0 := pages[0].(messages := pages[0].messages + [m])]) == Transcript(pages) + [m]
  {
    var next := pages[0 := pages[0].(messages := pages[0].messages + [m])];
    if |pages| == 1 {
      assert pages[..0] == [] && next[..0] == [];
    } else {
      var front := pages[..|pages| - 1];
      AppendedTranscript(front, m);
      assert next[..|pages| - 1] == front[0 := front[0].(messages := front[0].messages + [m])];
    }
  }

  /** The paged upsert refines the flat one. */
  lemma PagesRefineList(pages: seq<Page>, m: Message)
    requires pages != [] && DistinctIds(Transcript(pages))
    ensures Transcript(UpsertPages(pages, m)) == UpsertIntoList(Transcript(pages), m)
    ensures UpsertPages(pages, m) != []
  {
    SeenIff(pages, m.id);
    UpsertCases(Transcript(pages), m);
    if Seen(pages, m.id) {
      MergedTranscript(pages, m);
    } else {
      AppendedTranscript(pages, m);
    }
  }

  // ---------------------------------------------------------------- runs over both caches

  datatype Caches = Caches(flat: Option<seq<Message>>, paged: Option<seq<Page>>)

  datatype Upsert = Upsert(message: Message, seedIfMissing: bool)

  function Step(c: Caches, u: Upsert): Caches {
    Caches(FlatUpsert(c.flat, u.message, u.seedIfMissing), PagedUpsert(c.paged, u.message, u.seedIfMissing))
  }

  function Run(c: Caches, us: seq<Upsert>): Caches {
    if us == [] then c else Step(Run(c, us[..|us| - 1]), us[|us| - 1])
  }

  /** Two caches that are there hold the same transcript. */
  ghost predicate Agree(c: Caches) {
    c.flat.Some? && c.paged.Some? ==> Transcript(c.paged.value) == c.flat.value
  }

  ghost predicate OneRowPerId(c: Caches) {
    && (c.flat.Some? ==> DistinctIds(c.flat.value))
    && (c.paged.Some? ==> DistinctIds(Transcript(c.paged.value)))
  }

  /** There is no row but one that the message extends to itself. */
  predicate NothingBut(ms: seq<Message>, m: Message) {
    ms == [] || (|ms| == 1 && ms[0].id == m.id && Merge(ms[0], m) == m)
  }

  /** What a caller has to check before an upsert: seeding one cache beside the history of the other splits them. */
  predicate KeepsAgreement(c: Caches, u: Upsert) {
    match c
    case Caches(Some(_), Some(pages)) => pages != [] || u.seedIfMissing
    case Caches(Some(flat), None) => u.seedIfMissing ==> NothingBut(flat, u.message)
    case Caches(None, Some(pages)) => u.seedIfMissing ==> NothingBut(Transcript(pages), u.message)
    case Caches(None, None) => true
  }

  lemma OnePage(ms: seq<Message>, paging: Paging)
    ensures Transcript([Page(ms, paging)]) == ms
  {
    var pages := [Page(ms, paging)];
    assert pages[..0] == [];
    NothingMore(ms);
  }

  lemma UpsertIsAll(ms: seq<Message>, m: Message)
    ensures UpsertIntoList(ms, m) == [m] <==> NothingBut(ms, m)
  {
    UpsertCases(ms, m);
    if |ms| == 1 {
      assert ms[0 := m] == [m];
    }
  }

  lemma StepKeepsRows(c: Caches, u: Upsert)
    requires OneRowPerId(c)
    ensures OneRowPerId(Step(c, u))
  {
    OnePage([u.message], SEED_PAGING);
    if c.flat.Some? {
      UpsertKeepsDistinct(c.flat.value, u.message);
    }
    if c.paged.Some? && c.paged.value != [] {
      PagesRefineList(c.paged.value, u.message);
      UpsertKeepsDistinct(Transcript(c.paged.value), u.message);
    }
  }

  /** Whichever caches are there, an upsert keeps them in agreement exactly under this check. */
  lemma AgreementKeptIff(c: Caches, u: Upsert)
    requires OneRowPerId(c) && Agree(c)
    ensures Agree(Step(c, u)) <==> KeepsAgreement(c, u)
  {
    OnePage([u.message], SEED_PAGING);
    if c.flat.Some? {
      UpsertIsAll(c.flat.value, u.message);
    }
    if c.paged.Some? && c.paged.value != [] {
      UpsertIsAll(Transcript(c.paged.value), u.message);
      PagesRefineList(c.paged.value, u.message);
    }
  }

  /** A send into a session of which only one cache was ever loaded. */
  lemma SeedBesideHistory(a: Message, b: Message)
    requires a.id != b.id
    ensures !Agree(Step(Caches(None, Some([Page([a], SEED_PAGING)])), Upsert(b, true)))
    ensures !Agree(Step(Caches(Some([a]), None), Upsert(b, true)))
  {
    OnePage([a], SEED_PAGING);
    AgreementKeptIff(Caches(None, Some([Page([a], SEED_PAGING)])), Upsert(b, true));
    AgreementKeptIff(Caches(Some([a]), None), Upsert(b, true));
  }

  /** Both caches are there, the paged one with a page, and they hold one transcript. */
  ghost predicate Paired(c: Caches) {
    && c.flat.Some? && c.paged.Some? && c.paged.value != []
    && Transcript(c.paged.value) == c.flat.value && DistinctIds(c.flat.value)
  }

  lemma StepKeepsPaired(c: Caches, u: Upsert)
    requires OneRowPerId(c) && Agree(c)
    requires Paired(c) || (u.seedIfMissing && KeepsAgreement(c, u))
    ensures Paired(Step(c, u))
  {
    AgreementKeptIff(c, u);
    StepKeepsRows(c, u);
    if c.paged.Some? && c.paged.value != [] {
      PagesRefineList(c.paged.value, u.message);
    }
  }

  predicate Seeded(us: seq<Upsert>) {
    exists u :: u in us && u.seedIfMissing
  }

  /** The check holds at every upsert up to the first that seeds. */
  predicate Guarded(c: Caches, us: seq<Upsert>) {
    forall k :: 0 <= k < |us| && !Seeded(us[..k]) ==> KeepsAgreement(Run(c, us[..k]), us[k])
  }

  lemma GuardedPart(c: Caches, us: seq<Upsert>, n: nat)
    requires n <= |us| && Guarded(c, us)
    ensures Guarded(c, us[..n])
  {
    forall k | 0 <= k < n && !Seeded(us[..n][..k])
      ensures KeepsAgreement(Run(c, us[..n][..k]), us[..n][k])
    {
      assert us[..n][..k] == us[..k];
    }
  }

  lemma {:induction false} GuardedRunAgrees(c: Caches, us: seq<Upsert>)
    requires OneRowPerId(c) && Agree(c) && Guarded(c, us)
    ensures OneRowPerId(Run(c, us)) && Agree(Run(c, us))
    ensures Seeded(us) ==> Paired(Run(c, us))
  {
    if us != [] {
      var front, last := us[..|us| - 1], us[|us| - 1];
      GuardedPart(c, us, |us| - 1);
      GuardedRunAgrees(c, front);
      LastSplit(us);
      StepKeepsRows(Run(c, front), last);
      AgreementKeptIff(Run(c, front), last);
      if Seeded(front) || last.seedIfMissing {
        StepKeepsPaired(Run(c, front), last);
      }
    }
  }

  lemma {:induction false} RunKeepsRows(c: Caches, us: seq<Upsert>)
    requires OneRowPerId(c)
    ensures OneRowPerId(Run(c, us))
  {
    if us != [] {
      RunKeepsRows(c, us[..|us| - 1]);
      StepKeepsRows(Run(c, us[..|us| - 1]), us[|us| - 1]);
    }
  }

  /**
   * From any two caches in agreement, missing ones included: they agree throughout a run
   * if and only if the check holds up to and at the first upsert that seeds. From then on
   * they cannot drift apart.
   */
  lemma RunAgreesIff(c: Caches, us: seq<Upsert>)
    requires OneRowPerId(c) && Agree(c)
    ensures (forall n :: 0 <= n <= |us| ==> Agree(Run(c, us[..n]))) <==> Guarded(c, us)
  {
    if Guarded(c, us) {
      forall n | 0 <= n <= |us|
        ensures Agree(Run(c, us[..n]))
      {
        GuardedPart(c, us, n);
        GuardedRunAgrees(c, us[..n]);
      }
    }
    if forall n :: 0 <= n <= |us| ==> Agree(Run(c, us[..n])) {
      forall k | 0 <= k < |us| && !Seeded(us[..k])
        ensures KeepsAgreement(Run(c, us[..k]), us[k])
      {
        RunKeepsRows(c, us[..k]);
        LastOff(us[..k], us[k]);
        assert us[..k + 1] == us[..k] + [us[k]];
        AgreementKeptIff(Run(c, us[..k]), us[k]);
      }
    }
  }

  /** Without seeding, a run never creates a cache that was missing. */
  lemma {:induction false} NoSeedNoCache(c: Caches, us: seq<Upsert>)
    requires forall u :: u in us ==> !u.seedIfMissing
    ensures Run(c, us).flat.None? <==> c.flat.None?
    ensures Run(c, us).paged.None? <==> c.paged.None?
  {
    if us != [] {
      NoSeedNoCache(c, us[..|us| - 1]);
    }
  }

  // ---------------------------------------------------------------- paging survives

  /** The paging fields of each page. */
  function PagingOf(pages: seq<Page>): (r: seq<Paging>)
    ensures |r| == |pages| && forall k :: 0 <= k < |r| ==> r[k] == pages[k].paging
  {
    seq(|pages|, k requires 0 <= k < |pages| => pages[k].paging)
  }

  lemma {:induction false} MergeKeepsPaging(pages: seq<Page>, m: Message)
    ensures PagingOf(MergeIntoPages(pages, m)) == PagingOf(pages)
  {
    if pages != [] {
      MergeKeepsPaging(pages[..|pages| - 1], m);
      LastSplit(pages);
    }
  }

  /** An upsert adds no page, drops none, and leaves the way to older history as it is. */
  lemma UpsertKeepsPaging(pages: seq<Page>, m: Message)
    ensures |UpsertPages(pages, m)| == |pages|
    ensures forall k :: 0 <= k < |pages| ==> UpsertPages(pages, m)[k].paging == pages[k].paging
    ensures (forall page, x :: page in pages && x in page.messages ==> x.id != m.id) && pages != [] ==>
      UpsertPages(pages, m) == [Page(pages[0].messages + [m], pages[0].paging)] + pages[1..]
  {
    MergeKeepsPaging(pages, m);
    var r := MergeIntoPages(pages, m);
    assert |PagingOf(r)| == |r|;
    assert forall k :: 0 <= k < |pages| ==> PagingOf(r)[k] == PagingOf(pages)[k];
  }

  /**
   * Over every run the pages keep their number and their paging: those there at the start, or the
   * one page that the first seeding upsert makes, which leads to no older history.
   */
  lemma {:induction false} RunKeepsPaging(c: Caches, us: seq<Upsert>)
    ensures
      var before, after := c.paged, Run(c, us).paged;
      if before.Some? && before.value != [] then after.Some? && PagingOf(after.value) == PagingOf(before.value)
      else if Seeded(us) then after.Some? && PagingOf(after.value) == [Paging(50, false, None)]
      else after == before
  {
    if us != [] {
      var front, last := us[..|us| - 1], us[|us| - 1];
      RunKeepsPaging(c, front);
      LastSplit(us);
      var mid := Run(c, front).paged;
      if mid.Some? && mid.value != [] {
        UpsertKeepsPaging(mid.value, last.message);
        SamePaging(mid.value, UpsertPages(mid.value, last.message));
      }
    }
  }

  lemma SamePaging(a: seq<Page>, b: seq<Page>)
    requires |a| == |b| && forall k :: 0 <= k < |a| ==> a[k].paging == b[k].paging
    ensures PagingOf(a) == PagingOf(b)
  {
  }

  // ---------------------------------------------------------------- what a row ends up as

  function Upserts(ms: seq<Message>, us: seq<Message>): seq<Message> {
    if us == [] then ms else UpsertIntoList(Upserts(ms, us[..|us| - 1]), us[|us| - 1])
  }

  /** How many upserts come before the first that seeds. */
  function FirstSeed(us: seq<Upsert>): (n: nat)
    ensures n <= |us|
    ensures n < |us| ==> us[n].seedIfMissing
    ensures forall k :: 0 <= k < n ==> !us[k].seedIfMissing
  {
    if us == [] || us[0].seedIfMissing then 0 else 1 + FirstSeed(us[1..])
  }

  lemma FirstSeedStep(us: seq<Upsert>)
    requires us != []
    ensures
      var front, last := us[..|us| - 1], us[|us| - 1];
      FirstSeed(us) == if FirstSeed(front) < |front| || last.seedIfMissing then FirstSeed(front) else |us|
  {
    var front := us[..|us| - 1];
    assert forall k :: 0 <= k < |front| ==> front[k] == us[k];
  }

  lemma UpsertsLast(ms: seq<Message>, us: seq<Upsert>)
    requires us != []
    ensures Upserts(ms, Arrived(us)) == UpsertIntoList(Upserts(ms, Arrived(us[..|us| - 1])), us[|us| - 1].message)
  {
    assert Arrived(us)[..|us| - 1] == Arrived(us[..|us| - 1]);
  }

  lemma RunLast(c: Caches, us: seq<Upsert>)
    requires us != []
    ensures Run(c, us) == Step(Run(c, us[..|us| - 1]), us[|us| - 1])
  {
  }

  lemma {:induction false} FoldOfPresent(c: Caches, us: seq<Upsert>)
    requires c.flat.Some?
    ensures Run(c, us).flat == Some(Upserts(c.flat.value, Arrived(us)))
  {
    if us != [] {
      FoldOfPresent(c, us[..|us| - 1]);
      RunLast(c, us);
      UpsertsLast(c.flat.value, us);
    }
  }

  lemma {:induction false} FoldOfMissing(c: Caches, us: seq<Upsert>)
    requires c.flat.None?
    ensures Run(c, us).flat ==
      if FirstSeed(us) == |us| then None else Some(Upserts([], Arrived(us[FirstSeed(us)..])))
  {
    if us != [] {
      var front, last := us[..|us| - 1], us[|us| - 1];
      FoldOfMissing(c, front);
      FirstSeedStep(us);
      var k := FirstSeed(us);
      if k < |us| {
        var arrived := Arrived(us[k..]);
        assert arrived[..|arrived| - 1] == Arrived(front[k..]);
        assert arrived[|arrived| - 1] == last.message;
        assert UpsertIntoList([], last.message) == [last.message];
      }
    }
  }

  /**
   * The flat cache of a run is the fold of its messages; a missing one stays missing up to
   * the first upsert that seeds, and is the fold of what arrives from there on.
   */
  lemma RunIsFold(c: Caches, us: seq<Upsert>)
    ensures Run(c, us).flat ==
      if c.flat.Some? then Some(Upserts(c.flat.value, Arrived(us)))
      else if FirstSeed(us) == |us| then None
      else Some(Upserts([], Arrived(us[FirstSeed(us)..])))
  {
    if c.flat.Some? {
      FoldOfPresent(c, us);
    } else {
      FoldOfMissing(c, us);
    }
  }

  function Arrived(us: seq<Upsert>): seq<Message> {
    seq(|us|, i requires 0 <= i < |us| => us[i].message)
  }

  /** The observations of `id`, in arrival order. */
  function Observed(ms: seq<Message>, id: string): seq<Message> {
    if ms == [] then []
    else Observed(ms[..|ms| - 1], id) + (if ms[|ms| - 1].id == id then [ms[|ms| - 1]] else [])
  }

  /** Left-biased union: the earliest observation wins each field. */
  function LeftUnion(obs: seq<Message>): map<string, Value> {
    if obs == [] then map[] else Defined(obs[|obs| - 1]) + LeftUnion(obs[..|obs| - 1])
  }

  lemma ObservedStep(ms: seq<Message>, m: Message, id: string)
    ensures Observed(ms + [m], id) == Observed(ms, id) + (if m.id == id then [m] else [])
  {
    LastOff(ms, m);
  }

  lemma {:induction false} ObservedOfDistinct(ms: seq<Message>, id: string)
    requires DistinctIds(ms)
    ensures Observed(ms, id) == if FindIndex(ms, id).Some? then [ms[FindIndex(ms, id).value]] else []
  {
    if ms != [] {
      var front, last := ms[..|ms| - 1], ms[|ms| - 1];
      ObservedOfDistinct(front, id);
      LastSplit(ms);
      FindInConcat(front, [last], id);
      assert FindIndex([last], id) == if last.id == id then Some(0) else None;
    }
  }

  /**
   * After any run there is a row for an id exactly if it was observed, and that row is the
   * left-biased union of its observations in arrival order.
   */
  lemma {:induction false} RowIsLeftUnion(ms: seq<Message>, us: seq<Message>, id: string)
    requires DistinctIds(ms)
    ensures DistinctIds(Upserts(ms, us))
    ensures
      var r, obs := Upserts(ms, us), Observed(ms + us, id);
      && (FindIndex(r, id).Some? <==> obs != [])
      && (obs != [] ==> Defined(r[FindIndex(r, id).value]) == LeftUnion(obs))
  {
    if us == [] {
      assert ms + us == ms;
      ObservedOfDistinct(ms, id);
      if FindIndex(ms, id).Some? {
        SingleUnion(ms[FindIndex(ms, id).value]);
      }
    } else {
      var front, last := us[..|us| - 1], us[|us| - 1];
      LastSplit(us);
      Associative(ms, front, [last]);
      RowIsLeftUnion(ms, front, id);
      UpsertKeepsDistinct(Upserts(ms, front), last);
      ObservedStep(ms + front, last, id);
      RowAfterUpsert(Upserts(ms, front), last, id, Observed(ms + front, id));
    }
  }

  lemma SingleUnion(m: Message)
    ensures LeftUnion([m]) == Defined(m)
  {
    assert [m][..0] == [];
    assert LeftUnion([]) == map[];
    assert Defined(m) + map[] == Defined(m);
  }

  lemma UnionStep(obs: seq<Message>, m: Message)
    ensures LeftUnion(obs + [m]) == Defined(m) + LeftUnion(obs)
  {
    LastOff(obs, m);
  }

  lemma RowAfterUpsert(r: seq<Message>, m: Message, id: string, obs: seq<Message>)
    requires FindIndex(r, id).Some? <==> obs != []
    requires obs != [] ==> Defined(r[FindIndex(r, id).value]) == LeftUnion(obs)
    ensures
      var next, obs' := UpsertIntoList(r, m), obs + (if m.id == id then [m] else []);
      && (FindIndex(next, id).Some? <==> obs' != [])
      && (obs' != [] ==> Defined(next[FindIndex(next, id).value]) == LeftUnion(obs'))
  {
    UpsertCases(r, m);
    UnionStep(obs, m);
    SingleUnion(m);
    assert obs + [] == obs;
    var i := FindIndex(r, m.id);
    if i.Some? {
      MergeIsLeftUnion(r[i.value], m);
      SameIndices(r, MergeIntoList(r, m), id);
    } else {
      FindInConcat(r, [m], id);
      assert FindIndex([m], id) == if m.id == id then Some(0) else None;
    }
  }

  lemma {:induction false} SameIndices(a: seq<Message>, b: seq<Message>, id: string)
    requires |a| == |b| && forall k :: 0 <= k < |a| ==> a[k].id == b[k].id
    ensures FindIndex(a, id) == FindIndex(b, id)
  {
  }

  // ---------------------------------------------------------------- order does not matter

  lemma {:induction false} UnionFields(obs: seq<Message>, k: string)
    ensures k in LeftUnion(obs) <==> exists m :: m in obs && k in Defined(m)
    ensures k in LeftUnion(obs) ==> exists m :: m in obs && k in Defined(m) && Defined(m)[k] == LeftUnion(obs)[k]
  {
    if obs != [] {
      var front, last := obs[..|obs| - 1], obs[|obs| - 1];
      assert obs == front + [last];
      UnionFields(front, k);
    }
  }

  lemma MapsAssociative<T>(a: map<string, T>, b: map<string, T>, c: map<string, T>)
    ensures (a + b) + c == a + (b + c)
  {
  }

  lemma NoFields<T>(a: map<string, T>)
    ensures map[] + a == a && a + map[] == a
  {
  }

  lemma {:induction false} UnionConcat(a: seq<Message>, b: seq<Message>)
    ensures LeftUnion(a + b) == LeftUnion(b) + LeftUnion(a)
  {
    if b == [] {
      NothingMore(a);
      NoFields(LeftUnion(a));
    } else {
      UnionConcat(a, b[..|b| - 1]);
      LastOfConcat(a, b);
      MapsAssociative(Defined(b[|b| - 1]), LeftUnion(b[..|b| - 1]), LeftUnion(a));
    }
  }

  /** An observation in front of all others wins its fields. */
  lemma FrontWins(m: Message, obs: seq<Message>)
    ensures LeftUnion([m] + obs) == LeftUnion(obs) + Defined(m)
  {
    UnionConcat([m], obs);
    SingleUnion(m);
  }

  /** No two observations disagree on a field that both define and the row lacks. */
  ghost predicate CompatibleBeside(row: map<string, Value>, obs: seq<Message>) {
    forall a, b, k ::
      a in obs && b in obs && k in Defined(a) && k in Defined(b) && k !in row ==> Defined(a)[k] == Defined(b)[k]
  }

  lemma SameField(row: map<string, Value>, one: seq<Message>, two: seq<Message>, k: string)
    requires SetOf(one) == SetOf(two) && CompatibleBeside(row, one) && k !in row
    ensures k in LeftUnion(one) <==> k in LeftUnion(two)
    ensures k in LeftUnion(one) ==> LeftUnion(one)[k] == LeftUnion(two)[k]
  {
    forall m
      ensures m in one <==> m in two
    {
      assert m in SetOf(one) <==> m in SetOf(two);
    }
    UnionFields(one, k);
    UnionFields(two, k);
  }

  lemma SameMap<T>(a: map<string, T>, b: map<string, T>)
    requires forall k :: k in a <==> k in b
    requires forall k :: k in a ==> a[k] == b[k]
    ensures a == b
  {
  }

  /** Observations that fill the gaps of a row alike give the same row in every order and multiplicity … */
  lemma CompatibleConverge(row: map<string, Value>, one: seq<Message>, two: seq<Message>)
    requires SetOf(one) == SetOf(two) && CompatibleBeside(row, one)
    ensures LeftUnion(one) + row == LeftUnion(two) + row
  {
    var r, q := LeftUnion(one) + row, LeftUnion(two) + row;
    forall k
      ensures k in r <==> k in q
      ensures k in r ==> r[k] == q[k]
    {
      if k !in row {
        SameField(row, one, two, k);
      }
    }
    SameMap(r, q);
  }

  /** … and two that do not, give two rows, depending on which comes first. */
  lemma ContradictionDiverges(row: map<string, Value>, one: seq<Message>, a: Message, b: Message, k: string)
    requires a in one && b in one && k in Defined(a) && k in Defined(b) && k !in row
    requires Defined(a)[k] != Defined(b)[k]
    ensures SetOf([a] + one) == SetOf(one) == SetOf([b] + one)
    ensures LeftUnion([a] + one) + row != LeftUnion([b] + one) + row
  {
    FrontWins(a, one);
    FrontWins(b, one);
    assert (LeftUnion([a] + one) + row)[k] == Defined(a)[k];
    assert (LeftUnion([b] + one) + row)[k] == Defined(b)[k];
  }

  /** The fields of the row for `id`, if there is one. */
  function RowOf(ms: seq<Message>, id: string): Option<map<string, Value>> {
    var i := FindIndex(ms, id);
    if i.Some? then Some(Defined(ms[i.value])) else None
  }

  lemma {:induction false} ObservedConcat(a: seq<Message>, b: seq<Message>, id: string)
    ensures Observed(a + b, id) == Observed(a, id) + Observed(b, id)
  {
    if b == [] {
      NothingMore(a);
      NothingMore(Observed(a, id));
    } else {
      ObservedConcat(a, b[..|b| - 1], id);
      LastOfConcat(a, b);
      Associative(Observed(a, id), Observed(b[..|b| - 1], id), if b[|b| - 1].id == id then [b[|b| - 1]] else []);
    }
  }

  /** The row of a run: what it was, and what its observations filled in. */
  lemma RowAfterRun(ms: seq<Message>, us: seq<Message>, id: string)
    requires DistinctIds(ms)
    ensures
      var row, obs := RowOf(ms, id), Observed(us, id);
      RowOf(Upserts(ms, us), id) ==
        if row.None? && obs == [] then None else Some(LeftUnion(obs) + row.GetOr(map[]))
  {
    var obs := Observed(us, id);
    RowIsLeftUnion(ms, us, id);
    ObservedConcat(ms, us, id);
    ObservedOfDistinct(ms, id);
    var i := FindIndex(ms, id);
    if i.Some? {
      FrontWins(ms[i.value], obs);
    } else {
      NothingMore(obs);
      NoFields(LeftUnion(obs));
    }
  }

  lemma SameObservations(one: seq<Message>, two: seq<Message>, id: string)
    requires SetOf(one) == SetOf(two)
    ensures SetOf(Observed(one, id)) == SetOf(Observed(two, id))
  {
    ObservedMembers(one, id);
    ObservedMembers(two, id);
    assert forall m :: m in one <==> m in SetOf(one);
    assert forall m :: m in two <==> m in SetOf(two);
  }

  lemma ObservedFirst(m: Message, us: seq<Message>)
    ensures Observed([m] + us, m.id) == [m] + Observed(us, m.id)
  {
    ObservedConcat([m], us, m.id);
    ObservedStep([], m, m.id);
    NothingMore([m]);
  }

  lemma SameDelivery(ms: seq<Message>, one: seq<Message>, two: seq<Message>, id: string)
    requires DistinctIds(ms) && SetOf(one) == SetOf(two)
    requires CompatibleBeside(RowOf(ms, id).GetOr(map[]), Observed(one, id))
    ensures SameRow(ms, one, two, id)
  {
    RowAfterRun(ms, one, id);
    RowAfterRun(ms, two, id);
    SameObservations(one, two, id);
    SetOfEmpty(Observed(one, id));
    SetOfEmpty(Observed(two, id));
    CompatibleConverge(RowOf(ms, id).GetOr(map[]), Observed(one, id), Observed(two, id));
  }

  /** Two messages that contradict each other, each delivered first. */
  lemma ContradictionSplits(ms: seq<Message>, one: seq<Message>, a: Message, b: Message, k: string)
    requires DistinctIds(ms) && a.id == b.id
    requires a in Observed(one, a.id) && b in Observed(one, a.id)
    requires k in Defined(a) && k in Defined(b) && Defined(a)[k] != Defined(b)[k]
    requires k !in RowOf(ms, a.id).GetOr(map[])
    ensures SetOf([a] + one) == SetOf(one) == SetOf([b] + one)
    ensures !SameRow(ms, one, [a] + one, a.id) || !SameRow(ms, one, [b] + one, a.id)
  {
    ObservedMembers(one, a.id);
    RowAfterRun(ms, [a] + one, a.id);
    RowAfterRun(ms, [b] + one, a.id);
    ObservedFirst(a, one);
    ObservedFirst(b, one);
    ContradictionDiverges(RowOf(ms, a.id).GetOr(map[]), Observed(one, a.id), a, b, k);
  }

  predicate SameRow(ms: seq<Message>, one: seq<Message>, two: seq<Message>, id: string) {
    RowOf(Upserts(ms, one), id) == RowOf(Upserts(ms, two), id)
  }

  /** Every delivery of the same messages, permuted or repeated, leaves the same row for `id`. */
  ghost predicate Converges(ms: seq<Message>, one: seq<Message>, id: string) {
    forall two :: SetOf(two) == SetOf(one) ==> SameRow(ms, one, two, id)
  }

  /**
   * Order-independence, exactly: every delivery of the same messages leaves the same row if and
   * only if no two of them disagree on a field the row lacked.
   */
  lemma ArrivalOrderConvergesIff(ms: seq<Message>, one: seq<Message>, id: string)
    requires DistinctIds(ms)
    ensures Converges(ms, one, id) <==> CompatibleBeside(RowOf(ms, id).GetOr(map[]), Observed(one, id))
  {
    var row, obs := RowOf(ms, id).GetOr(map[]), Observed(one, id);
    if CompatibleBeside(row, obs) {
      forall two | SetOf(two) == SetOf(one)
        ensures SameRow(ms, one, two, id)
      {
        SameDelivery(ms, one, two, id);
      }
    } else {
      var a, b, k :|
        a in obs && b in obs && k in Defined(a) && k in Defined(b) && k !in row && Defined(a)[k] != Defined(b)[k];
      ObservedMembers(one, id);
      ContradictionSplits(ms, one, a, b, k);
    }
  }

  function Content(x: Value): Message {
    Message("m", map["content" := Some(x)])
  }

  /** Two rows of one id with different content: whichever arrives first stays. */
  lemma FirstContentStays(x: Value, y: Value)
    requires x != y
    ensures RowOf(Upserts([], [Content(x), Content(y)]), "m") != RowOf(Upserts([], [Content(y), Content(x)]), "m")
  {
    PairRow(Content(x), Content(y), x);
    PairRow(Content(y), Content(x), y);
    assert map["content" := x]["content"] == x;
  }

  lemma PairRow(a: Message, b: Message, x: Value)
    requires a == Content(x) && b.id == a.id && Defined(b).Keys <= {"content"}
    ensures RowOf(Upserts([], [a, b]), "m") == Some(map["content" := x])
  {
    assert Defined(a) == map["content" := x];
    TwoUpserts(a, b);
    SecondAddsNothing(a, b);
  }

  lemma TwoUpserts(a: Message, b: Message)
    ensures Upserts([], [a, b]) == UpsertIntoList([a], b)
  {
    LastOff([a], b);
    LastOff([], a);
    assert [a] + [b] == [a, b] && [] + [a] == [a];
    assert Upserts([], [a]) == [a];
  }

  lemma SecondAddsNothing(a: Message, b: Message)
    requires a.id == b.id && Defined(b).Keys <= Defined(a).Keys
    ensures UpsertIntoList([a], b) == [a]
  {
    UpsertCases([a], b);
    MergeIsLeftUnion(a, b);
  }

  // ---------------------------------------------------------------- redelivery

  lemma {:induction false} ObservedMembers(ms: seq<Message>, id: string)
    ensures forall m :: m in Observed(ms, id) <==> m in ms && m.id == id
  {
    if ms != [] {
      ObservedMembers(ms[..|ms| - 1], id);
      assert ms == ms[..|ms| - 1] + [ms[|ms| - 1]];
    }
  }

  /** Delivering an observation again changes neither cache. */
  lemma RedeliveryChangesNothing(ms: seq<Message>, us: seq<Message>, m: Message, pages: seq<Page>)
    requires DistinctIds(ms) && m in ms + us
    requires pages != [] && Transcript(pages) == Upserts(ms, us)
    ensures UpsertIntoList(Upserts(ms, us), m) == Upserts(ms, us)
    ensures UpsertPages(pages, m) == pages
  {
    var r, obs := Upserts(ms, us), Observed(ms + us, m.id);
    RowIsLeftUnion(ms, us, m.id);
    ObservedMembers(ms + us, m.id);
    assert m in obs;
    forall k | k in Defined(m)
      ensures k in LeftUnion(obs)
    {
      UnionFields(obs, k);
    }
    var row := r[FindIndex(r, m.id).value];
    MergeIsLeftUnion(row, m);
    UpsertCases(r, m);
    SeenIff(pages, m.id);
    assert forall x :: x in r && x.id == m.id ==> x == row;
    PagesUntouched(pages, m);
  }

  lemma {:induction false} PagesUntouched(pages: seq<Page>, m: Message)
    requires forall x :: x in Transcript(pages) && x.id == m.id ==> Merge(x, m) == x
    ensures MergeIntoPages(pages, m) == pages
  {
    if pages != [] {
      var front, last := pages[..|pages| - 1], pages[|pages| - 1];
      assert forall x :: x in last.messages || x in Transcript(front) ==> x in Transcript(pages);
      PagesUntouched(front, m);
      ListUntouched(last.messages, m);
      assert last.(messages := last.messages) == last;
      LastSplit(pages);
    }
  }

  lemma ListUntouched(ms: seq<Message>, m: Message)
    requires forall x :: x in ms && x.id == m.id ==> Merge(x, m) == x
    ensures MergeIntoList(ms, m) == ms
  {
  }
}
