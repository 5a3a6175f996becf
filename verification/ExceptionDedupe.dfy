/**
 * packages/core/analytics/exception-dedupe.ts: a per-tab fuse that keeps the first events of
 * each fingerprint, and keeps everything whenever its storage lets it down.
 */
module ExceptionDedupe {
  import opened Prelude

  const SAMPLE_LIMIT := 3
  const MAX_FINGERPRINTS := 50

  type Counts = map<string, nat>

  /** What is stored under the key: nothing, something that is no counts object, or counts. */
  datatype Blob = Missing | Corrupt | Stored(counts: Counts)

  /** Whether sessionStorage exists, and whether reading and writing it work just now. */
  datatype Storage = Storage(available: bool, readable: bool, writable: bool)

  function ReadCounts(blob: Blob): Counts {
    if blob.Stored? then blob.counts else map[]
  }

  function CountOf(counts: Counts, fingerprint: string): nat {
    if fingerprint in counts then counts[fingerprint] else 0
  }

  /** The verdict on one event and the blob it leaves. */
  function Decide(blob: Blob, fingerprint: Option<string>, storage: Storage): (bool, Blob) {
    if fingerprint.None? || !storage.available || !storage.readable then (false, blob)
    else
      var counts := ReadCounts(blob);
      var current := CountOf(counts, fingerprint.value);
      if current >= SAMPLE_LIMIT then (true, blob)
      else if current == 0 && |counts| >= MAX_FINGERPRINTS then (false, blob)
      else (false, if storage.writable then Stored(counts[fingerprint.value := current + 1]) else blob)
  }

  class SessionStorage {
    var blob: Blob

    method ShouldDropException(fingerprint: Option<string>, storage: Storage) returns (drop: bool)
      modifies this
      ensures (drop, blob) == Decide(old(blob), fingerprint, storage)
    {
      if fingerprint.None? {
        return false;
      }
      if !storage.available {
        return false;
      }
      if !storage.readable {
        return false;
      }
      var counts := ReadCounts(blob);
      var current := if fingerprint.value in counts then counts[fingerprint.value] else 0;
      if current >= SAMPLE_LIMIT {
        return true;
      }
      if current == 0 && |counts| >= MAX_FINGERPRINTS {
        return false;
      }
      counts := counts[fingerprint.value := current + 1];
      if storage.writable {
        blob := Stored(counts);
      }
      return false;
    }
  }

  // ---------------------------------------------------------------- runs

  /** An exception, or the stored blob vanishing or being damaged. */
  datatype Event = Raised(fingerprint: Option<string>, storage: Storage) | Lost(corrupt: bool)

  function BlobAfter(events: seq<Event>): Blob {
    if events == [] then Missing
    else
      var before, last := BlobAfter(events[..|events| - 1]), events[|events| - 1];
      match last
      case Raised(fingerprint, storage) => Decide(before, fingerprint, storage).1
      case Lost(corrupt) => if corrupt then Corrupt else Missing
  }

  /** Is the event after `events` dropped? */
  predicate Dropped(events: seq<Event>, e: Event) {
    e.Raised? && Decide(BlobAfter(events), e.fingerprint, e.storage).0
  }

  /** How many events with this fingerprint were kept. */
  function Kept(events: seq<Event>, fingerprint: string): nat {
    if events == [] then 0
    else
      var front, last := events[..|events| - 1], events[|events| - 1];
      Kept(front, fingerprint)
      + (if last.Raised? && last.fingerprint == Some(fingerprint) && !Dropped(front, last) then 1 else 0)
  }

  ghost predicate Honest(events: seq<Event>) {
    var counts := ReadCounts(BlobAfter(events));
    && |counts| <= 50
    && forall f :: f in counts ==> 1 <= counts[f] <= 3 && counts[f] <= Kept(events, f)
  }

  /** Stored counts stay within the limits and never claim more than was kept. */
  lemma {:induction false} RunsStayHonest(events: seq<Event>)
    ensures Honest(events)
  {
    if events != [] {
      var front, last := events[..|events| - 1], events[|events| - 1];
      RunsStayHonest(front);
      var counts, next := ReadCounts(BlobAfter(front)), ReadCounts(BlobAfter(events));
      if last.Raised? && next != counts {
        var f := last.fingerprint.value;
        assert next.Keys == counts.Keys + {f};
        assert f in counts ==> counts.Keys + {f} == counts.Keys;
      }
    }
  }

  /**
   * Whatever fails or is cleared on the way, an event is dropped only after at least three
   * events with its fingerprint were kept.
   */
  lemma DropsOnlyRepeats(events: seq<Event>, e: Event)
    requires Dropped(events, e)
    ensures e.fingerprint.Some? && Kept(events, e.fingerprint.value) >= 3
  {
    RunsStayHonest(events);
  }

  /**
   * Every failure lets the event through: nothing to tell it by, no storage, storage that cannot be
   * read, and counts that are missing or damaged. What cannot be read or written stays as it was.
   */
  lemma FailuresKeepTheEvent(events: seq<Event>, fingerprint: Option<string>, storage: Storage)
    requires
      || fingerprint.None? || !storage.available || !storage.readable || !storage.writable
      || !BlobAfter(events).Stored?
    ensures
      var e, blob := Raised(fingerprint, storage), BlobAfter(events);
      && (fingerprint.None? || !storage.available || !storage.readable || !blob.Stored? ==> !Dropped(events, e))
      && (fingerprint.None? || !storage.available || !storage.readable || !storage.writable ==>
            BlobAfter(events + [e]) == blob)
  {
    LastOff(events, Raised(fingerprint, storage));
  }

  // ---------------------------------------------------------------- with reliable storage

  const WORKING := Storage(true, true, true)

  function Reliable(fingerprints: seq<string>): seq<Event> {
    seq(|fingerprints|, i requires 0 <= i < |fingerprints| => Raised(Some(fingerprints[i]), WORKING))
  }

  function Occurrences(s: seq<string>, f: string): nat {
    if s == [] then 0 else Occurrences(s[..|s| - 1], f) + (if s[|s| - 1] == f then 1 else 0)
  }

  lemma {:induction false} OccursIff(s: seq<string>, f: string)
    ensures Occurrences(s, f) > 0 <==> f in s
  {
    if s != [] {
      OccursIff(s[..|s| - 1], f);
      LastSplit(s);
    }
  }

  /** The fingerprints that are counted: the first fifty. */
  function Tracked(s: seq<string>): seq<string> {
    if |Firsts(s)| <= 50 then Firsts(s) else Firsts(s)[..50]
  }

  ghost predicate Counted(s: seq<string>, counts: Counts) {
    && counts.Keys == SetOf(Tracked(s))
    && forall f :: f in counts ==>
         counts[f] == if Occurrences(s, f) < SAMPLE_LIMIT then Occurrences(s, f) else SAMPLE_LIMIT
  }

  lemma TrackedSize(s: seq<string>)
    ensures |SetOf(Tracked(s))| == |Tracked(s)|
  {
    DistinctLength(Tracked(s));
  }

  lemma TrackedStep(s: seq<string>, f: string)
    ensures Tracked(s + [f]) == if f in s || |Tracked(s)| == MAX_FINGERPRINTS then Tracked(s) else Tracked(s) + [f]
    ensures f !in s ==> f !in Tracked(s)
    ensures |Tracked(s)| <= MAX_FINGERPRINTS
  {
    assert (s + [f])[..|s|] == s;
  }

  lemma OccurrenceStep(s: seq<string>, f: string)
    ensures forall g :: Occurrences(s + [f], g) == Occurrences(s, g) + (if g == f then 1 else 0)
  {
    LastOff(s, f);
  }

  lemma TrackedIsSeen(s: seq<string>, f: string)
    ensures f in Tracked(s) ==> f in s
    ensures f in s && f !in Tracked(s) ==> |Tracked(s)| == MAX_FINGERPRINTS
  {
  }

  /** A fingerprint already counted, or arriving when the fifty are taken, leaves them as they are. */
  lemma CountedAgain(s: seq<string>, f: string, counts: Counts)
    requires Counted(s, counts) && (f in counts || |Tracked(s)| == MAX_FINGERPRINTS)
    ensures Counted(s + [f], if f in counts && counts[f] < SAMPLE_LIMIT then counts[f := counts[f] + 1] else counts)
  {
    TrackedIsSeen(s, f);
    TrackedStep(s, f);
    OccurrenceStep(s, f);
    if f in counts && counts[f] < SAMPLE_LIMIT {
      var next := counts[f := counts[f] + 1];
      assert next.Keys == counts.Keys;
    }
  }

  lemma CountedNew(s: seq<string>, f: string, counts: Counts)
    requires Counted(s, counts) && f !in counts && |Tracked(s)| < MAX_FINGERPRINTS
    ensures Counted(s + [f], counts[f := 1])
  {
    TrackedIsSeen(s, f);
    OccursIff(s, f);
    TrackedStep(s, f);
    OccurrenceStep(s, f);
    var tracked := Tracked(s);
    assert SetOf(tracked + [f]) == SetOf(tracked) + {f};
    assert counts[f := 1].Keys == counts.Keys + {f};
  }

  lemma CountedSize(s: seq<string>, counts: Counts)
    requires Counted(s, counts)
    ensures |counts| == |Tracked(s)| <= MAX_FINGERPRINTS
    ensures forall f :: f in counts ==> counts[f] > 0
  {
    TrackedSize(s);
    assert |counts| == |counts.Keys|;
    forall f | f in counts
      ensures counts[f] > 0
    {
      TrackedIsSeen(s, f);
      OccursIff(s, f);
    }
  }

  /** What a working storage holds after one more event. */
  lemma WorkingStep(blob: Blob, f: string)
    ensures
      var counts, next := ReadCounts(blob), ReadCounts(Decide(blob, Some(f), WORKING).1);
      && (CountOf(counts, f) >= SAMPLE_LIMIT ==> next == counts)
      && (CountOf(counts, f) == 0 && |counts| >= MAX_FINGERPRINTS ==> next == counts)
      && (CountOf(counts, f) < SAMPLE_LIMIT && !(CountOf(counts, f) == 0 && |counts| >= MAX_FINGERPRINTS) ==>
            next == counts[f := CountOf(counts, f) + 1])
  {
  }

  lemma CountedNext(s: seq<string>, f: string, counts: Counts, next: Counts)
    requires Counted(s, counts) && |counts| == |Tracked(s)| <= MAX_FINGERPRINTS && (f in counts ==> counts[f] > 0)
    requires CountOf(counts, f) >= SAMPLE_LIMIT ==> next == counts
    requires CountOf(counts, f) == 0 && |counts| >= MAX_FINGERPRINTS ==> next == counts
    requires CountOf(counts, f) < SAMPLE_LIMIT && !(CountOf(counts, f) == 0 && |counts| >= MAX_FINGERPRINTS) ==>
               next == counts[f := CountOf(counts, f) + 1]
    ensures Counted(s + [f], next)
  {
    if f in counts || |Tracked(s)| == MAX_FINGERPRINTS {
      CountedAgain(s, f, counts);
    } else {
      CountedNew(s, f, counts);
    }
  }

  lemma CountedStep(s: seq<string>, f: string, blob: Blob)
    requires Counted(s, ReadCounts(blob))
    ensures Counted(s + [f], ReadCounts(Decide(blob, Some(f), WORKING).1))
  {
    CountedSize(s, ReadCounts(blob));
    WorkingStep(blob, f);
    CountedNext(s, f, ReadCounts(blob), ReadCounts(Decide(blob, Some(f), WORKING).1));
  }

  lemma {:induction false} ReliableCounts(s: seq<string>)
    ensures Counted(s, ReadCounts(BlobAfter(Reliable(s))))
  {
    if s == [] {
      assert Tracked([]) == [];
    } else {
      var front, f := s[..|s| - 1], s[|s| - 1];
      ReliableCounts(front);
      LastSplit(s);
      assert Reliable(s)[..|s| - 1] == Reliable(front);
      CountedStep(front, f, BlobAfter(Reliable(front)));
    }
  }

  /**
   * With reliable storage, each of the first fifty fingerprints keeps exactly its first three
   * events, and every later fingerprint keeps all of its events.
   */
  lemma ReliableFuse(s: seq<string>, f: string)
    ensures Dropped(Reliable(s), Raised(Some(f), WORKING)) <==> f in Tracked(s) && Occurrences(s, f) >= 3
  {
    ReliableCounts(s);
  }
}
