/** What a win and a latency mean: who is credited with a shred, and when the
    numbers are the distances to the earliest arrival. */
module Wins {
  import opened Bytes
  import opened Sequences
  import opened Shred
  import opened Registry
  import Keyed
  import opened Stats
  import Replay

  /** The records a registry holds (see Registry.ShredsExact). */
  ghost predicate Recorded(rec: ShredRecord) {
    ShredExact(rec, rec.arrivals)
  }

  ghost predicate AllRecorded(entries: seq<Entry>) {
    forall e | e in entries :: Recorded(e.rec)
  }

  lemma TableRecorded(m: map<ShredKey, ShredRecord>, h: seq<Event>, entries: seq<Entry>)
    requires ShredsExact(m, h) && Enumerates(entries, m)
    ensures AllRecorded(entries)
  {
  }

  /** The times of all arrivals, whatever the source. */
  function Times(arrivals: seq<Arrival>): seq<Instant> {
    seq(|arrivals|, i requires 0 <= i < |arrivals| => arrivals[i].at)
  }

  function GlobalFirst(rec: ShredRecord): Instant
    requires rec.arrivals != []
  {
    MinOf(Times(rec.arrivals))
  }

  lemma {:induction false} TimesFromMembers(arrivals: seq<Arrival>, id: SourceId, t: Instant)
    ensures t in TimesFrom(arrivals, id) <==> Arrival(id, t) in arrivals
  {
    if arrivals == [] {
    } else {
      TimesFromMembers(Front(arrivals), id, t);
      assert arrivals == Front(arrivals) + [Last(arrivals)];
    }
  }

  lemma FirstFromIsLeast(rec: ShredRecord, id: SourceId)
    requires Has(rec, id)
    ensures Arrival(id, FirstFrom(rec, id)) in rec.arrivals
    ensures forall t | Arrival(id, t) in rec.arrivals :: FirstFrom(rec, id) <= t
    ensures GlobalFirst(rec) <= FirstFrom(rec, id)
  {
    forall t ensures t in TimesFrom(rec.arrivals, id) <==> Arrival(id, t) in rec.arrivals {
      TimesFromMembers(rec.arrivals, id, t);
    }
    var i :| 0 <= i < |rec.arrivals| && rec.arrivals[i] == Arrival(id, FirstFrom(rec, id));
    assert Times(rec.arrivals)[i] in Times(rec.arrivals);
  }

  /** Unconditionally: the source recorded first has delta 0, hence a win. */
  lemma FirstSourceWins(rec: ShredRecord)
    requires Recorded(rec)
    ensures Has(rec, rec.firstSource) && Delta(rec, rec.firstSource) == 0
  {
    TimesFromMembers(rec.arrivals, rec.firstSource, rec.firstSeen);
    assert rec.arrivals[0] == Arrival(rec.firstSource, rec.firstSeen);
  }

  function WinsIn(entries: seq<Entry>): SourceId -> nat {
    (id: SourceId) => CountIf(entries, WonBy(id))
  }

  function CreditedFor(e: Entry): SourceId -> bool {
    (id: SourceId) => WonBy(id)(e)
  }

  lemma {:induction false} WinsSnoc(entries: seq<Entry>, e: Entry, ids: seq<SourceId>)
    ensures SumOf(ids, WinsIn(entries + [e])) == SumOf(ids, WinsIn(entries)) + CountIf(ids, CreditedFor(e))
  {
    if ids == [] {
    } else {
      WinsSnoc(entries, e, Front(ids));
      CountIfSnoc(entries, e, WonBy(Last(ids)));
    }
  }

  lemma {:induction false} CountedOnce<T>(xs: seq<T>, x: T, p: T -> bool)
    requires x in xs && p(x)
    ensures CountIf(xs, p) >= 1
  {
    if Last(xs) == x {
    } else {
      assert xs == Front(xs) + [Last(xs)];
      CountedOnce(Front(xs), x, p);
    }
  }

  /** Whoever is recorded first wins: counted over any list of sources that has them all. */
  lemma {:induction false} FirstsWithinWins(entries: seq<Entry>, p: Entry -> bool, ids: seq<SourceId>)
    requires AllRecorded(entries)
    requires forall e | e in entries && p(e) :: e.rec.firstSource in ids
    ensures CountIf(entries, p) <= SumOf(ids, WinsIn(entries))
  {
    if entries == [] {
    } else {
      var before, e := Front(entries), Last(entries);
      assert entries == before + [e];
      FirstsWithinWins(before, p, ids);
      WinsSnoc(before, e, ids);
      if p(e) {
        FirstSourceWins(e.rec);
        CountedOnce(ids, e.rec.firstSource, CreditedFor(e));
      }
    }
  }

  /** So every shred is won: with every source that sent a shred active, the
      wins of all sources add up to at least the number of unique shreds. */
  lemma EveryShredIsWon(entries: seq<Entry>, m: map<ShredKey, ShredRecord>, h: seq<Event>, ids: seq<SourceId>)
    requires Enumerates(entries, m) && ShredsExact(m, h)
    requires forall e | e in h && e.ShredEvent? :: e.source in ids
    ensures SumOf(ids, WinsIn(entries)) >= |Replay.Keys(h)| == |m|
  {
    Replay.EnumerationKeys(entries, m, h);
    EnumerationSize(entries, m);
    TableRecorded(m, h, entries);
    forall e | e in entries ensures e.rec.firstSource in ids {
      Replay.ArrivalMembers(h, e.key, e.rec.arrivals[0]);
    }
    Keyed.CountAny(entries);
    FirstsWithinWins(entries, Keyed.Any(), ids);
  }

  /** No two arrivals lie 2^64 ns or more apart, so `as u64` truncates nothing. */
  ghost predicate WithinU64(arrivals: seq<Arrival>) {
    forall a, b | a in arrivals && b in arrivals :: a.at - b.at < TWO_TO_THE_64
  }

  ghost predicate Untruncated(rec: ShredRecord) {
    WithinU64(rec.arrivals)
  }

  /** A source is credited with a win exactly when its earliest arrival is no
      later than the one recorded first. That is right (it is credited exactly
      if it delivered the shred first) unless it was beaten and still is no
      later than the one recorded first. Its latency is the distance to the
      earliest arrival exactly when that one was recorded first, or is its own. */
  lemma WinExactly(rec: ShredRecord, id: SourceId)
    requires Recorded(rec) && Has(rec, id) && Untruncated(rec)
    ensures Delta(rec, id) == 0 <==> FirstFrom(rec, id) <= rec.firstSeen
    ensures (Delta(rec, id) == 0 <==> FirstFrom(rec, id) == GlobalFirst(rec))
       <==> FirstFrom(rec, id) == GlobalFirst(rec) || FirstFrom(rec, id) > rec.firstSeen
    ensures Delta(rec, id) == FirstFrom(rec, id) - GlobalFirst(rec)
       <==> rec.firstSeen == GlobalFirst(rec) || FirstFrom(rec, id) == GlobalFirst(rec)
  {
    FirstFromIsLeast(rec, id);
    assert rec.arrivals[0] in rec.arrivals;
    assert rec.arrivals[0] == Arrival(rec.firstSource, rec.firstSeen);
    assert Times(rec.arrivals)[0] in Times(rec.arrivals);
    assert FirstFrom(rec, id) - rec.firstSeen < TWO_TO_THE_64;
  }

  /** When a shred's arrivals are recorded in time order, the winners are
      exactly the sources that tie the earliest arrival, and every latency is
      the exact distance to it. */
  lemma TimeOrderedWins(rec: ShredRecord, id: SourceId)
    requires Recorded(rec) && Has(rec, id) && Untruncated(rec)
    requires forall i, j | 0 <= i < j < |rec.arrivals| :: rec.arrivals[i].at <= rec.arrivals[j].at
    ensures Delta(rec, id) == 0 <==> FirstFrom(rec, id) == GlobalFirst(rec)
    ensures Delta(rec, id) == FirstFrom(rec, id) - GlobalFirst(rec)
  {
    assert forall i | 0 <= i < |rec.arrivals| :: rec.arrivals[0].at <= rec.arrivals[i].at;
    assert Times(rec.arrivals)[0] == rec.firstSeen;
    assert forall t | t in Times(rec.arrivals) :: rec.firstSeen <= t;
    MinUnique(Times(rec.arrivals), rec.firstSeen);
    FirstFromIsLeast(rec, id);
    WinExactly(rec, id);
  }

  /** Out of order, a source that was beaten by 5 ns is still credited with the
      shred; the same two arrivals recorded in time order cost it those 5 ns. */
  lemma BeatenSourceMayWin()
    ensures var rec := ShredRecord(10, 1, [Arrival(1, 10), Arrival(2, 5)]);
            Recorded(rec) && Has(rec, 1) && Delta(rec, 1) == 0 && FirstFrom(rec, 1) == 10 && GlobalFirst(rec) == 5
    ensures var rec := ShredRecord(5, 2, [Arrival(2, 5), Arrival(1, 10)]);
            Recorded(rec) && Has(rec, 1) && Delta(rec, 1) == 5
  {
  }
}
