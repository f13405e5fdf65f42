/** Only differences of times matter: moving every recorded time by one constant,
    as another origin of the monotonic clock would, leaves all statistics as they are. */
module Shifts {
  import opened Bytes
  import opened Sequences
  import opened Shred
  import opened Registry
  import opened Stats
  import opened Replay
  import opened Percentile

  function ShiftEvent(e: Event, c: int): Event {
    match e
    case ShredEvent(source, key, at) => ShredEvent(source, key, at + c)
    case SlotEvent(source, slot, at) => SlotEvent(source, slot, at + c)
    case GrpcLatencyEvent(_, _) => e
  }

  function Shift(h: seq<Event>, c: int): seq<Event> {
    seq(|h|, i requires 0 <= i < |h| => ShiftEvent(h[i], c))
  }

  lemma ShiftSnoc(h: seq<Event>, e: Event, c: int)
    ensures Shift(h + [e], c) == Shift(h, c) + [ShiftEvent(e, c)]
  {
  }

  function ShiftTimes(ts: seq<Instant>, c: int): seq<Instant> {
    seq(|ts|, i requires 0 <= i < |ts| => ts[i] + c)
  }

  function ShiftArrivals(arrivals: seq<Arrival>, c: int): seq<Arrival> {
    seq(|arrivals|, i requires 0 <= i < |arrivals| => Arrival(arrivals[i].source, arrivals[i].at + c))
  }

  lemma ShiftTimesSnoc(ts: seq<Instant>, t: Instant, c: int)
    ensures ShiftTimes(ts + [t], c) == ShiftTimes(ts, c) + [t + c]
  {
  }

  lemma ShiftMin(ts: seq<Instant>, c: int)
    requires ts != []
    ensures MinOf(ShiftTimes(ts, c)) == MinOf(ts) + c
  {
    var i :| 0 <= i < |ts| && ts[i] == MinOf(ts);
    assert ShiftTimes(ts, c)[i] == MinOf(ts) + c;
    forall t | t in ShiftTimes(ts, c) ensures MinOf(ts) + c <= t {
      var j :| 0 <= j < |ts| && ShiftTimes(ts, c)[j] == t;
      assert ts[j] in ts;
    }
    MinUnique(ShiftTimes(ts, c), MinOf(ts) + c);
  }

  lemma {:induction false} ShiftShreds(h: seq<Event>, c: int, k: ShredKey)
    ensures Arrivals(Shift(h, c), k) == ShiftArrivals(Arrivals(h, k), c)
  {
    if h == [] {
    } else {
      ShiftShreds(Front(h), c, k);
      ShiftSnoc(Front(h), Last(h), c);
      assert h == Front(h) + [Last(h)];
      ArrivalsSnoc(Shift(Front(h), c), ShiftEvent(Last(h), c), k);
    }
  }

  lemma {:induction false} ShiftSlots(h: seq<Event>, c: int, slot: u64)
    ensures SlotTimes(Shift(h, c), slot) == ShiftTimes(SlotTimes(h, slot), c)
  {
    if h == [] {
    } else {
      ShiftSlots(Front(h), c, slot);
      ShiftSnoc(Front(h), Last(h), c);
      assert h == Front(h) + [Last(h)];
      SlotTimesSnoc(Shift(Front(h), c), ShiftEvent(Last(h), c), slot);
      if !Last(h).GrpcLatencyEvent? {
        ShiftTimesSnoc(SlotTimes(Front(h), slot), Last(h).at, c);
      }
    }
  }

  lemma {:induction false} ShiftEntries(h: seq<Event>, c: int, slot: u64, id: SourceId)
    ensures EntryTimes(Shift(h, c), slot, id) == ShiftTimes(EntryTimes(h, slot, id), c)
  {
    if h == [] {
    } else {
      ShiftEntries(Front(h), c, slot, id);
      ShiftSnoc(Front(h), Last(h), c);
      assert h == Front(h) + [Last(h)];
      EntryTimesSnoc(Shift(Front(h), c), ShiftEvent(Last(h), c), slot, id);
    }
  }

  lemma {:induction false} ShiftTimesFrom(arrivals: seq<Arrival>, c: int, id: SourceId)
    ensures TimesFrom(ShiftArrivals(arrivals, c), id) == ShiftTimes(TimesFrom(arrivals, id), c)
  {
    if arrivals == [] {
    } else {
      ShiftTimesFrom(Front(arrivals), c, id);
      assert Front(ShiftArrivals(arrivals, c)) == ShiftArrivals(Front(arrivals), c);
    }
  }

  // ---- Shred-level statistics ----

  lemma ShiftedLatency(h: seq<Event>, c: int, id: SourceId, k: ShredKey)
    ensures LatencyIn(Shift(h, c), id)(k) == LatencyIn(h, id)(k)
  {
    ShiftShreds(h, c, k);
    ShiftTimesFrom(Arrivals(h, k), c, id);
    if TimesFrom(Arrivals(h, k), id) != [] {
      ShiftMin(TimesFrom(Arrivals(h, k), id), c);
    }
  }

  lemma ShiftedKeys(h: seq<Event>, c: int, id: SourceId)
    ensures Keys(Shift(h, c)) == Keys(h) && KeysFrom(Shift(h, c), id) == KeysFrom(h, id)
    ensures forall v: u64 :: KeysAt(Shift(h, c), id, v) == KeysAt(h, id, v)
  {
    forall k: ShredKey
      ensures (k in Keys(Shift(h, c)) <==> k in Keys(h)) && (k in KeysFrom(Shift(h, c), id) <==> k in KeysFrom(h, id))
      ensures LatencyIn(Shift(h, c), id)(k) == LatencyIn(h, id)(k)
    {
      ShiftShreds(h, c, k);
      ShiftTimesFrom(Arrivals(h, k), c, id);
      KeyRecorded(h, k);
      KeyRecorded(Shift(h, c), k);
      KeyReceived(h, k, id);
      KeyReceived(Shift(h, c), k, id);
      ShiftedLatency(h, c, id, k);
    }
  }

  lemma {:induction false} ShiftedCount(h: seq<Event>, c: int, id: SourceId)
    ensures CountIf(Shift(h, c), ShredFrom(id)) == CountIf(h, ShredFrom(id))
  {
    if h == [] {
    } else {
      ShiftedCount(Front(h), c, id);
      ShiftSnoc(Front(h), Last(h), c);
      assert h == Front(h) + [Last(h)];
      CountIfSnoc(Shift(Front(h), c), ShiftEvent(Last(h), c), ShredFrom(id));
    }
  }

  /** However the two tables are enumerated: the same counts and wins, the same
      latencies as a bag, hence the same percentiles. */
  lemma ShiftedShreds(fl: real -> real, h: seq<Event>, h': seq<Event>, c: int, id: SourceId,
                      m: map<ShredKey, ShredRecord>, entries: seq<Entry>, st: SourceStats, p: Percentiles,
                      m': map<ShredKey, ShredRecord>, entries': seq<Entry>, st': SourceStats, p': Percentiles)
    requires h' == Shift(h, c)
    requires ShredsExact(m, h) && Enumerates(entries, m) && Tallies(st, entries, id)
    requires ShredsExact(m', h') && Enumerates(entries', m') && Tallies(st', entries', id)
    requires Summarizes(fl, p, st.latency) && Summarizes(fl, p', st'.latency)
    ensures |m| == |m'| && st.received == st'.received && st.missed == st'.missed && st.dupes == st'.dupes
    ensures st.dataShreds == st'.dataShreds && st.codeShreds == st'.codeShreds
    ensures st.wins == st'.wins && multiset(st.latency) == multiset(st'.latency) && p == p'
  {
    TalliesFromHistory(entries, m, h, id, st);
    TalliesFromHistory(entries', m', h', id, st');
    ShiftedKeys(h, c, id);
    ShiftedCount(h, c, id);
    ReportsAgree(st, h, st', h', id);
    SummaryUnique(fl, st.latency, st'.latency, p, p');
  }

  // ---- Entry-level statistics ----

  lemma ShiftedSlotLatency(h: seq<Event>, c: int, id: SourceId, slot: u64)
    ensures SlotLatencyIn(Shift(h, c), id)(slot) == SlotLatencyIn(h, id)(slot)
  {
    ShiftSlots(h, c, slot);
    ShiftEntries(h, c, slot, id);
    if EntryTimes(h, slot, id) != [] {
      EntrySlotSeen(h, slot, id);
      ShiftMin(EntryTimes(h, slot, id), c);
      ShiftMin(SlotTimes(h, slot), c);
    }
  }

  lemma ShiftedSlotKeys(h: seq<Event>, c: int, id: SourceId)
    ensures SlotsIn(Shift(h, c)) == SlotsIn(h) && SlotsFrom(Shift(h, c), id) == SlotsFrom(h, id)
    ensures forall v: u64 :: SlotsAt(Shift(h, c), id, v) == SlotsAt(h, id, v)
  {
    forall slot: u64
      ensures slot in SlotsIn(Shift(h, c)) <==> slot in SlotsIn(h)
      ensures slot in SlotsFrom(Shift(h, c), id) <==> slot in SlotsFrom(h, id)
      ensures SlotLatencyIn(Shift(h, c), id)(slot) == SlotLatencyIn(h, id)(slot)
    {
      SlotSeen(h, slot, id);
      SlotSeen(Shift(h, c), slot, id);
      ShiftSlots(h, c, slot);
      ShiftEntries(h, c, slot, id);
      ShiftedSlotLatency(h, c, id, slot);
    }
  }

  /** The same for entry sources. */
  lemma ShiftedSlots(fl: real -> real, h: seq<Event>, h': seq<Event>, c: int, id: SourceId,
                     m: map<u64, SlotRecord>, entries: seq<SlotEntry>, st: EntrySourceStats, p: Percentiles,
                     m': map<u64, SlotRecord>, entries': seq<SlotEntry>, st': EntrySourceStats, p': Percentiles)
    requires h' == Shift(h, c)
    requires SlotsExact(m, h) && EnumeratesSlots(entries, m) && SlotTallies(st, entries, id)
    requires SlotsExact(m', h') && EnumeratesSlots(entries', m') && SlotTallies(st', entries', id)
    requires Summarizes(fl, p, st.latency) && Summarizes(fl, p', st'.latency)
    ensures |m| == |m'| && st.slotsSeen == st'.slotsSeen
    ensures multiset(st.latency) == multiset(st'.latency) && p == p'
  {
    SlotTalliesFromHistory(entries, m, h, id, st);
    SlotTalliesFromHistory(entries', m', h', id, st');
    ShiftedSlotKeys(h, c, id);
    SlotReportsAgree(st, h, st', h', id);
    SummaryUnique(fl, st.latency, st'.latency, p, p');
  }
}
