/** Which statistics depend on the order in which the events were recorded, and
    for those that may, exactly when they do not. */
module Order {
  import opened Bytes
  import opened Sequences
  import opened Shred
  import opened Registry
  import opened Stats
  import opened Replay
  import opened Wins

  // ---- What never depends on the order ----

  lemma SameMin(ts: seq<int>, ts': seq<int>)
    requires forall t :: t in ts <==> t in ts'
    ensures Earliest(ts) == Earliest(ts')
  {
  }

  lemma TimeMembers(h: seq<Event>, k: ShredKey, id: SourceId, t: Instant)
    ensures t in TimesFrom(Arrivals(h, k), id) <==> ShredEvent(id, k, t) in h
  {
    TimesFromMembers(Arrivals(h, k), id, t);
    ArrivalMembers(h, k, Arrival(id, t));
  }

  lemma SameTimes(h: seq<Event>, h': seq<Event>, k: ShredKey, id: SourceId)
    requires multiset(h) == multiset(h')
    ensures Earliest(TimesFrom(Arrivals(h, k), id)) == Earliest(TimesFrom(Arrivals(h', k), id))
  {
    SameElements(h, h');
    var ts, ts' := TimesFrom(Arrivals(h, k), id), TimesFrom(Arrivals(h', k), id);
    forall t ensures t in ts <==> t in ts' {
      TimeMembers(h, k, id, t);
      TimeMembers(h', k, id, t);
    }
    SameMin(ts, ts');
  }

  lemma SameEntryTimes(h: seq<Event>, h': seq<Event>, slot: u64, id: SourceId)
    requires multiset(h) == multiset(h')
    ensures Earliest(EntryTimes(h, slot, id)) == Earliest(EntryTimes(h', slot, id))
  {
    SameElements(h, h');
    forall t ensures t in EntryTimes(h, slot, id) <==> t in EntryTimes(h', slot, id) {
      EntryTimeMembers(h, slot, id, t);
      EntryTimeMembers(h', slot, id, t);
    }
    SameMin(EntryTimes(h, slot, id), EntryTimes(h', slot, id));
  }

  function SampleOf(id: SourceId, latency: u64): Event -> bool {
    (e: Event) => e == GrpcLatencyEvent(id, latency)
  }

  lemma {:induction false} SampleCount(h: seq<Event>, id: SourceId, latency: u64)
    ensures multiset(Samples(h, id))[latency] == CountIf(h, SampleOf(id, latency))
  {
    if h == [] {
    } else {
      SampleCount(Front(h), id, latency);
    }
  }

  lemma SameSamples(h: seq<Event>, h': seq<Event>, id: SourceId)
    requires multiset(h) == multiset(h')
    ensures multiset(Samples(h, id)) == multiset(Samples(h', id))
  {
    forall latency: u64 ensures multiset(Samples(h, id))[latency] == multiset(Samples(h', id))[latency] {
      SampleCount(h, id, latency);
      SampleCount(h', id, latency);
      CountIfBag(h, h', SampleOf(id, latency));
    }
  }

  lemma SameKeys(h: seq<Event>, h': seq<Event>, id: SourceId)
    requires multiset(h) == multiset(h')
    ensures Keys(h) == Keys(h') && KeysFrom(h, id) == KeysFrom(h', id)
    ensures SlotsIn(h) == SlotsIn(h') && SlotsFrom(h, id) == SlotsFrom(h', id)
  {
    SameElements(h, h');
  }

  /** Two registries that recorded permutations of the same events give every
      source the same counts, however the tables are enumerated. */
  lemma CountsIgnoreOrder(h: seq<Event>, m: map<ShredKey, ShredRecord>, entries: seq<Entry>, st: SourceStats,
                          h': seq<Event>, m': map<ShredKey, ShredRecord>, entries': seq<Entry>, st': SourceStats,
                          id: SourceId)
    requires multiset(h) == multiset(h')
    requires Enumerates(entries, m) && ShredsExact(m, h) && Tallies(st, entries, id)
    requires Enumerates(entries', m') && ShredsExact(m', h') && Tallies(st', entries', id)
    ensures st.received == st'.received && st.missed == st'.missed && st.dupes == st'.dupes
    ensures st.dataShreds == st'.dataShreds && st.codeShreds == st'.codeShreds
    ensures |m| == |m'|
  {
    TalliesFromHistory(entries, m, h, id, st);
    TalliesFromHistory(entries', m', h', id, st');
    SameKeys(h, h', id);
    CountIfBag(h, h', ShredFrom(id));
  }

  /** The same for the slots that an entry source has seen. */
  lemma SlotCountsIgnoreOrder(
      h: seq<Event>, m: map<u64, SlotRecord>, entries: seq<SlotEntry>, st: EntrySourceStats,
      h': seq<Event>, m': map<u64, SlotRecord>, entries': seq<SlotEntry>, st': EntrySourceStats, id: SourceId)
    requires multiset(h) == multiset(h')
    requires EnumeratesSlots(entries, m) && SlotsExact(m, h) && SlotTallies(st, entries, id)
    requires EnumeratesSlots(entries', m') && SlotsExact(m', h') && SlotTallies(st', entries', id)
    ensures st.slotsSeen == st'.slotsSeen && |m| == |m'|
  {
    SlotTalliesFromHistory(entries, m, h, id, st);
    SlotTalliesFromHistory(entries', m', h', id, st');
    SameKeys(h, h', id);
  }

  /** They also agree on each source's earliest arrival of each shred, on its
      entry in each slot record, and on its gRPC samples as a bag. */
  lemma TablesIgnoreOrder(h: seq<Event>, t: Tables, h': seq<Event>, t': Tables,
                          k: ShredKey, slot: u64, id: SourceId)
    requires multiset(h) == multiset(h') && IsIndexOf(t, h) && IsIndexOf(t', h')
    ensures k in t.shreds <==> k in t'.shreds
    ensures k in t.shreds ==>
              Earliest(TimesFrom(t.shreds[k].arrivals, id)) == Earliest(TimesFrom(t'.shreds[k].arrivals, id))
    ensures slot in t.slots <==> slot in t'.slots
    ensures slot in t.slots ==> Find(t.slots[slot].entryArrivals, id) == Find(t'.slots[slot].entryArrivals, id)
    ensures id in t.grpcLatencies <==> id in t'.grpcLatencies
    ensures id in t.grpcLatencies ==> multiset(t.grpcLatencies[id]) == multiset(t'.grpcLatencies[id])
  {
    SameElements(h, h');
    KeyRecorded(h, k);
    KeyRecorded(h', k);
    SameTimes(h, h', k, id);
    SlotRecorded(h, slot);
    SlotRecorded(h', slot);
    SameEntryTimes(h, h', slot, id);
    SameSamples(h, h', id);
    assert |multiset(Samples(h, id))| == |Samples(h, id)| && |multiset(Samples(h', id))| == |Samples(h', id)|;
    assert slot in t.slots <==> SlotTimes(h, slot) != [];
    assert slot in t'.slots <==> SlotTimes(h', slot) != [];
    if slot in t.slots {
      assert SlotExact(t.slots[slot], h, slot) && SlotExact(t'.slots[slot], h', slot);
    }
  }

  // ---- One shred: when its latency depends on the order of its arrivals ----

  /** The source's earliest arrival is the earliest of all. */
  ghost predicate TiesEarliest(arrivals: seq<Arrival>, id: SourceId) {
    Earliest(TimesFrom(arrivals, id)) == Earliest(Times(arrivals))
  }

  lemma TimesMembers(arrivals: seq<Arrival>, t: Instant)
    ensures t in Times(arrivals) <==> exists a :: a in arrivals && a.at == t
  {
    if a :| a in arrivals && a.at == t {
      var i :| 0 <= i < |arrivals| && arrivals[i] == a;
      assert Times(arrivals)[i] == t;
    }
    if t in Times(arrivals) {
      var i :| 0 <= i < |Times(arrivals)| && Times(arrivals)[i] == t;
      assert arrivals[i] in arrivals;
    }
  }

  lemma SameEarliest(arrivals: seq<Arrival>, arrivals': seq<Arrival>, id: SourceId)
    requires multiset(arrivals) == multiset(arrivals')
    ensures Earliest(TimesFrom(arrivals, id)) == Earliest(TimesFrom(arrivals', id))
    ensures Earliest(Times(arrivals)) == Earliest(Times(arrivals'))
  {
    SameElements(arrivals, arrivals');
    forall t ensures t in TimesFrom(arrivals, id) <==> t in TimesFrom(arrivals', id) {
      TimesFromMembers(arrivals, id, t);
      TimesFromMembers(arrivals', id, t);
    }
    SameMin(TimesFrom(arrivals, id), TimesFrom(arrivals', id));
    forall t ensures t in Times(arrivals) <==> t in Times(arrivals') {
      TimesMembers(arrivals, t);
      TimesMembers(arrivals', t);
    }
    SameMin(Times(arrivals), Times(arrivals'));
  }

  /** A source that ties the earliest arrival has latency 0 in every order. */
  lemma TieIsZero(arrivals: seq<Arrival>, id: SourceId)
    requires TimesFrom(arrivals, id) != [] && TiesEarliest(arrivals, id)
    ensures LatencyOf(arrivals, id) == Some(0)
  {
    assert Times(arrivals)[0] in Times(arrivals);
  }

  /** A beaten source has latency 0 if its own earliest arrival is recorded
      first, and another one if the earliest of all is. */
  lemma BeatenLatency(arrivals: seq<Arrival>, id: SourceId)
    requires TimesFrom(arrivals, id) != [] && !TiesEarliest(arrivals, id) && WithinU64(arrivals)
    ensures arrivals[0] == Arrival(id, MinOf(TimesFrom(arrivals, id))) ==> LatencyOf(arrivals, id) == Some(0)
    ensures arrivals[0].at == MinOf(Times(arrivals)) ==>
              LatencyOf(arrivals, id).Some? && LatencyOf(arrivals, id) != Some(0)
  {
    var rec := RecordOf(arrivals);
    FirstFromIsLeast(rec, id);
    WinExactly(rec, id);
  }

  lemma Contenders(arrivals: seq<Arrival>, id: SourceId) returns (own: Arrival, best: Arrival)
    requires TimesFrom(arrivals, id) != []
    ensures own in arrivals && own == Arrival(id, MinOf(TimesFrom(arrivals, id)))
    ensures best in arrivals && best.at == MinOf(Times(arrivals))
  {
    own := Arrival(id, MinOf(TimesFrom(arrivals, id)));
    TimesFromMembers(arrivals, id, own.at);
    TimesMembers(arrivals, MinOf(Times(arrivals)));
    best :| best in arrivals && best.at == MinOf(Times(arrivals));
  }

  lemma LedBy(arrivals: seq<Arrival>, first: Arrival) returns (led: seq<Arrival>)
    requires first in arrivals
    ensures multiset(led) == multiset(arrivals) && led != [] && led[0] == first
  {
    var i :| 0 <= i < |arrivals| && arrivals[i] == first;
    ForwardBag(arrivals, i);
    led := BroughtForward(arrivals, i);
  }

  lemma BeatenEitherWay(arrivals: seq<Arrival>, id: SourceId, first: Arrival) returns (led: seq<Arrival>)
    requires TimesFrom(arrivals, id) != [] && !TiesEarliest(arrivals, id) && WithinU64(arrivals)
    requires first in arrivals
    ensures multiset(led) == multiset(arrivals)
    ensures first == Arrival(id, MinOf(TimesFrom(arrivals, id))) ==> LatencyOf(led, id) == Some(0)
    ensures first.at == MinOf(Times(arrivals)) ==> LatencyOf(led, id) != Some(0)
  {
    led := LedBy(arrivals, first);
    SameEarliest(arrivals, led, id);
    SameElements(arrivals, led);
    BeatenLatency(led, id);
  }

  /** A source's latency for a shred is the same for every order of recording
      its arrivals exactly when the source ties the earliest of them. */
  lemma LatencyOrderFree(arrivals: seq<Arrival>, id: SourceId)
    requires TimesFrom(arrivals, id) != [] && WithinU64(arrivals)
    ensures (forall arrivals' | multiset(arrivals') == multiset(arrivals) ::
               LatencyOf(arrivals', id) == LatencyOf(arrivals, id))
       <==> TiesEarliest(arrivals, id)
  {
    if TiesEarliest(arrivals, id) {
      TieIsZero(arrivals, id);
      forall arrivals' | multiset(arrivals') == multiset(arrivals)
        ensures LatencyOf(arrivals', id) == LatencyOf(arrivals, id)
      {
        SameEarliest(arrivals, arrivals', id);
        TieIsZero(arrivals', id);
      }
    } else {
      var own, best := Contenders(arrivals, id);
      var credited := BeatenEitherWay(arrivals, id, own);
      var late := BeatenEitherWay(arrivals, id, best);
    }
  }

  // ---- All shreds: when wins and latencies depend on the order of recording ----

  /** Recording one shred before everything else changes nothing for the others. */
  lemma OneKeyMoved(h: seq<Event>, i: nat, k: ShredKey)
    requires i < |h| && h[i].ShredEvent?
    ensures k != h[i].key ==> Arrivals(BroughtForward(h, i), k) == Arrivals(h, k)
    ensures k == h[i].key ==>
              Arrivals(BroughtForward(h, i), k) != []
              && Arrivals(BroughtForward(h, i), k)[0] == Arrival(h[i].source, h[i].at)
  {
    SplitAt(h, i);
    ArrivalsConcat([h[i]], h[..i] + h[i + 1..], k);
    ArrivalsConcat(h[..i], h[i + 1..], k);
    ArrivalsConcat(h[..i] + [h[i]], h[i + 1..], k);
    ArrivalsConcat(h[..i], [h[i]], k);
    ArrivalsOfOne(h[i], k);
  }

  lemma ArrivalsPermuted(h: seq<Event>, h': seq<Event>, k: ShredKey, id: SourceId)
    requires multiset(h) == multiset(h')
    ensures forall a :: a in Arrivals(h, k) <==> a in Arrivals(h', k)
    ensures Earliest(TimesFrom(Arrivals(h, k), id)) == Earliest(TimesFrom(Arrivals(h', k), id))
    ensures Earliest(Times(Arrivals(h, k))) == Earliest(Times(Arrivals(h', k)))
  {
    SameElements(h, h');
    forall a ensures a in Arrivals(h, k) <==> a in Arrivals(h', k) {
      ArrivalMembers(h, k, a);
      ArrivalMembers(h', k, a);
    }
    SameTimes(h, h', k, id);
    forall t ensures t in Times(Arrivals(h, k)) <==> t in Times(Arrivals(h', k)) {
      TimesMembers(Arrivals(h, k), t);
      TimesMembers(Arrivals(h', k), t);
    }
    SameMin(Times(Arrivals(h, k)), Times(Arrivals(h', k)));
  }

  /** The source was never beaten: it ties the earliest arrival of every shred it delivered. */
  ghost predicate NeverBeaten(h: seq<Event>, id: SourceId) {
    forall k | k in KeysFrom(h, id) :: TiesEarliest(Arrivals(h, k), id)
  }

  lemma NeverBeatenWinsAll(h: seq<Event>, id: SourceId, v: u64)
    requires NeverBeaten(h, id)
    ensures KeysAt(h, id, v) == if v == 0 then KeysFrom(h, id) else {}
  {
    forall k | k in KeysFrom(h, id) ensures LatencyIn(h, id)(k) == Some(0) {
      KeyReceived(h, k, id);
      TieIsZero(Arrivals(h, k), id);
    }
  }

  lemma NeverBeatenPermuted(h: seq<Event>, h': seq<Event>, id: SourceId)
    requires multiset(h) == multiset(h') && NeverBeaten(h, id)
    ensures NeverBeaten(h', id) && KeysFrom(h', id) == KeysFrom(h, id)
  {
    SameKeys(h, h', id);
    forall k | k in KeysFrom(h', id) ensures TiesEarliest(Arrivals(h', k), id) {
      ArrivalsPermuted(h, h', k, id);
    }
  }

  /** A history like `h` but for one shred of key `k`, recorded first. */
  lemma RecordedFirst(h: seq<Event>, k: ShredKey, first: Arrival, id: SourceId) returns (h': seq<Event>)
    requires first in Arrivals(h, k)
    ensures multiset(h') == multiset(h) && Arrivals(h', k) != [] && Arrivals(h', k)[0] == first
    ensures forall k' | k' != k :: LatencyIn(h', id)(k') == LatencyIn(h, id)(k')
  {
    ArrivalMembers(h, k, first);
    var i :| 0 <= i < |h| && h[i] == ShredEvent(first.source, k, first.at);
    h' := BroughtForward(h, i);
    ForwardBag(h, i);
    OneKeyMoved(h, i, k);
    forall k' | k' != k ensures LatencyIn(h', id)(k') == LatencyIn(h, id)(k') {
      OneKeyMoved(h, i, k');
    }
  }

  lemma OneKeyDecides(h: seq<Event>, h': seq<Event>, k: ShredKey, id: SourceId)
    requires multiset(h) == multiset(h') && k in KeysFrom(h, id)
    requires forall k' | k' != k :: LatencyIn(h', id)(k') == LatencyIn(h, id)(k')
    requires LatencyIn(h', id)(k) == Some(0) && LatencyIn(h, id)(k) != Some(0)
    ensures |KeysAt(h', id, 0)| == |KeysAt(h, id, 0)| + 1
  {
    SameKeys(h, h', id);
    assert KeysAt(h', id, 0) == KeysAt(h, id, 0) + {k};
  }

  /** A beaten source may be given one win more or less by the order alone. */
  lemma BeatenMayWin(h: seq<Event>, k: ShredKey, id: SourceId) returns (credited: seq<Event>, late: seq<Event>)
    requires k in KeysFrom(h, id) && !TiesEarliest(Arrivals(h, k), id) && WithinU64(Arrivals(h, k))
    ensures multiset(credited) == multiset(h) == multiset(late)
    ensures |KeysAt(credited, id, 0)| == |KeysAt(late, id, 0)| + 1
  {
    KeyReceived(h, k, id);
    var own, best := Contenders(Arrivals(h, k), id);
    credited := RecordedFirst(h, k, own, id);
    late := RecordedFirst(h, k, best, id);
    ArrivalsPermuted(h, credited, k, id);
    ArrivalsPermuted(h, late, k, id);
    BeatenLatency(Arrivals(credited, k), id);
    BeatenLatency(Arrivals(late, k), id);
    SameKeys(h, late, id);
    OneKeyDecides(late, credited, k, id);
  }

  /** A source's wins, and its latencies as a bag, are the same for every order
      of recording the same events exactly when it was never beaten. */
  lemma WinsOrderFree(h: seq<Event>, id: SourceId)
    requires forall k | k in KeysFrom(h, id) :: WithinU64(Arrivals(h, k))
    ensures (forall h' | multiset(h') == multiset(h) :: |KeysAt(h', id, 0)| == |KeysAt(h, id, 0)|)
       <==> NeverBeaten(h, id)
    ensures (forall h', v: u64 | multiset(h') == multiset(h) :: |KeysAt(h', id, v)| == |KeysAt(h, id, v)|)
       <==> NeverBeaten(h, id)
  {
    if NeverBeaten(h, id) {
      forall h', v: u64 | multiset(h') == multiset(h) ensures |KeysAt(h', id, v)| == |KeysAt(h, id, v)| {
        NeverBeatenPermuted(h, h', id);
        NeverBeatenWinsAll(h, id, v);
        NeverBeatenWinsAll(h', id, v);
      }
    } else {
      var k :| k in KeysFrom(h, id) && !TiesEarliest(Arrivals(h, k), id);
      var credited, late := BeatenMayWin(h, k, id);
    }
  }

  /** No arrival of the shred was recorded after a later one had been taken for the first. */
  ghost predicate FirstIsEarliest(rec: ShredRecord) {
    forall a | a in rec.arrivals :: rec.firstSeen <= a.at
  }

  lemma SameLatencyIn(h: seq<Event>, m: map<ShredKey, ShredRecord>, h': seq<Event>, m': map<ShredKey, ShredRecord>,
                      k: ShredKey, id: SourceId)
    requires multiset(h) == multiset(h') && ShredsExact(m, h) && ShredsExact(m', h')
    requires k in m && FirstIsEarliest(m[k])
    requires k in m' ==> FirstIsEarliest(m'[k])
    ensures LatencyIn(h, id)(k) == LatencyIn(h', id)(k)
  {
    ArrivalsPermuted(h, h', k, id);
    var arrivals, arrivals' := Arrivals(h, k), Arrivals(h', k);
    assert arrivals != [] && m[k] == RecordOf(arrivals);
    assert arrivals[0] in arrivals' && m'[k] == RecordOf(arrivals') && arrivals'[0] in arrivals;
    assert arrivals[0].at == arrivals'[0].at;
  }

  lemma SameKeysAt(h: seq<Event>, m: map<ShredKey, ShredRecord>, h': seq<Event>, m': map<ShredKey, ShredRecord>,
                   id: SourceId, v: u64)
    requires multiset(h) == multiset(h') && ShredsExact(m, h) && ShredsExact(m', h')
    requires forall k | k in m :: FirstIsEarliest(m[k])
    requires forall k | k in m' :: FirstIsEarliest(m'[k])
    ensures KeysAt(h, id, v) == KeysAt(h', id, v)
  {
    SameKeys(h, h', id);
    forall k | k in KeysFrom(h, id) ensures LatencyIn(h, id)(k) == LatencyIn(h', id)(k) {
      KeyRecorded(h, k);
      SameLatencyIn(h, m, h', m', k, id);
    }
  }

  /** Among runs that record every shred's earliest arrival first, wins and
      latencies do not depend on the order, whoever was beaten. */
  lemma WinsIgnoreOrderWhenEarliestFirst(
      h: seq<Event>, m: map<ShredKey, ShredRecord>, entries: seq<Entry>, st: SourceStats,
      h': seq<Event>, m': map<ShredKey, ShredRecord>, entries': seq<Entry>, st': SourceStats, id: SourceId)
    requires multiset(h) == multiset(h')
    requires Enumerates(entries, m) && ShredsExact(m, h) && Tallies(st, entries, id)
    requires Enumerates(entries', m') && ShredsExact(m', h') && Tallies(st', entries', id)
    requires forall k | k in m :: FirstIsEarliest(m[k])
    requires forall k | k in m' :: FirstIsEarliest(m'[k])
    ensures st.wins == st'.wins && multiset(st.latency) == multiset(st'.latency)
  {
    TalliesFromHistory(entries, m, h, id, st);
    TalliesFromHistory(entries', m', h', id, st');
    forall v: u64 ensures |KeysAt(h, id, v)| == |KeysAt(h', id, v)| {
      SameKeysAt(h, m, h', m', id, v);
    }
    ReportsAgree(st, h, st', h', id);
  }

  // ---- Slots: when first_shred_at and slot latencies depend on the order ----

  lemma {:induction false} ShredTimeMembers(h: seq<Event>, slot: u64, t: Instant)
    ensures t in ShredTimes(h, slot) <==> exists e :: e in h && e.ShredEvent? && e.key.slot == slot && e.at == t
  {
    if h == [] {
    } else {
      ShredTimeMembers(Front(h), slot, t);
      assert h == Front(h) + [Last(h)];
    }
  }

  lemma {:induction false} SlotTimeMembers(h: seq<Event>, slot: u64)
    ensures forall t | t in SlotTimes(h, slot) :: exists e :: e in h && OfSlot(e, slot) && e.at == t
  {
    if h == [] {
    } else {
      SlotTimeMembers(Front(h), slot);
      assert h == Front(h) + [Last(h)];
    }
  }

  lemma {:induction false} FirstSlotTime(h: seq<Event>, slot: u64)
    requires h != [] && OfSlot(h[0], slot)
    ensures SlotTimes(h, slot) != [] && SlotTimes(h, slot)[0] == h[0].at
  {
    if |h| == 1 {
      assert SlotTimes(Front(h), slot) == [];
    } else {
      FirstSlotTime(Front(h), slot);
    }
  }

  /** What first_shred_at becomes if the slot's first recorded event has time `t`. */
  function Seeded(h: seq<Event>, slot: u64, t: Instant): Instant {
    if ShredTimes(h, slot) == [] || t < MinOf(ShredTimes(h, slot)) then t else MinOf(ShredTimes(h, slot))
  }

  lemma SeededByFirst(h: seq<Event>, slot: u64)
    requires SlotTimes(h, slot) != []
    ensures MinOf(SlotTimes(h, slot)) == Seeded(h, slot, SlotTimes(h, slot)[0])
    ensures exists e :: e in h && OfSlot(e, slot) && e.at == SlotTimes(h, slot)[0]
  {
    SlotTimesShape(h, slot);
    SlotTimeMembers(h, slot);
    if ShredTimes(h, slot) != [] {
      MinOfSeeded(SlotTimes(h, slot), ShredTimes(h, slot));
    }
  }

  lemma SeededPermuted(h: seq<Event>, h': seq<Event>, slot: u64, t: Instant)
    requires multiset(h) == multiset(h')
    ensures Seeded(h, slot, t) == Seeded(h', slot, t)
  {
    SameElements(h, h');
    forall x ensures x in ShredTimes(h, slot) <==> x in ShredTimes(h', slot) {
      ShredTimeMembers(h, slot, x);
      ShredTimeMembers(h', slot, x);
    }
    SameMin(ShredTimes(h, slot), ShredTimes(h', slot));
  }

  /** Any event of the slot may be recorded first. */
  lemma SeededByAny(h: seq<Event>, slot: u64, e: Event) returns (h': seq<Event>)
    requires e in h && OfSlot(e, slot)
    ensures multiset(h') == multiset(h) && SlotTimes(h', slot) != []
    ensures MinOf(SlotTimes(h', slot)) == Seeded(h, slot, e.at)
  {
    var i :| 0 <= i < |h| && h[i] == e;
    h' := BroughtForward(h, i);
    ForwardBag(h, i);
    FirstSlotTime(h', slot);
    SeededByFirst(h', slot);
    SeededPermuted(h, h', slot, e.at);
  }

  lemma SeededBySome(h: seq<Event>, h': seq<Event>, slot: u64) returns (e: Event)
    requires multiset(h) == multiset(h') && SlotTimes(h', slot) != []
    ensures e in h && OfSlot(e, slot) && MinOf(SlotTimes(h', slot)) == Seeded(h, slot, e.at)
  {
    SameElements(h, h');
    SeededByFirst(h', slot);
    e :| e in h' && OfSlot(e, slot) && e.at == SlotTimes(h', slot)[0];
    SeededPermuted(h, h', slot, e.at);
  }

  lemma DistancesDiffer(at: Instant, early: Instant, late: Instant)
    requires early < late && early < at && at - early < TWO_TO_THE_64
    ensures AsU64(SaturatingSub(at, early)) != AsU64(SaturatingSub(at, late))
  {
  }

  /** A slot latency is documented as the distance to the slot's first shred.
      Below 2^64 ns it is that exactly when the slot's first recorded event is no
      earlier than its earliest shred, or the entry is no later than that event. */
  lemma SlotLatencyExact(h: seq<Event>, slot: u64, id: SourceId)
    requires ShredTimes(h, slot) != [] && EntryTimes(h, slot, id) != []
    requires SlotTimes(h, slot) != [] ==>
               MinOf(EntryTimes(h, slot, id)) - MinOf(SlotTimes(h, slot)) < TWO_TO_THE_64
    ensures SlotTimes(h, slot) != []
    ensures SlotLatencyIn(h, id)(slot)
            == Some(AsU64(SaturatingSub(MinOf(EntryTimes(h, slot, id)), MinOf(ShredTimes(h, slot)))))
       <==> || SlotTimes(h, slot)[0] >= MinOf(ShredTimes(h, slot))
            || MinOf(EntryTimes(h, slot, id)) <= SlotTimes(h, slot)[0]
  {
    EntrySlotSeen(h, slot, id);
    SlotTimesShape(h, slot);
    MinOfSeeded(SlotTimes(h, slot), ShredTimes(h, slot));
    var entry, seed, shred := MinOf(EntryTimes(h, slot, id)), SlotTimes(h, slot)[0], MinOf(ShredTimes(h, slot));
    if seed < shred && seed < entry {
      DistancesDiffer(entry, seed, shred);
    }
  }

  /** No event of the slot is earlier than its earliest shred; without shreds, all have one time. */
  ghost predicate SeedFree(h: seq<Event>, slot: u64) {
    if ShredTimes(h, slot) != [] then forall e | e in h && OfSlot(e, slot) :: MinOf(ShredTimes(h, slot)) <= e.at
    else forall e, e' | e in h && OfSlot(e, slot) && e' in h && OfSlot(e', slot) :: e.at == e'.at
  }

  lemma SeedsDiffer(h: seq<Event>, slot: u64) returns (e: Event, e': Event)
    requires !SeedFree(h, slot)
    ensures e in h && OfSlot(e, slot) && e' in h && OfSlot(e', slot)
    ensures Seeded(h, slot, e.at) != Seeded(h, slot, e'.at)
  {
    if ShredTimes(h, slot) != [] {
      e :| e in h && OfSlot(e, slot) && e.at < MinOf(ShredTimes(h, slot));
      ShredTimeMembers(h, slot, MinOf(ShredTimes(h, slot)));
      e' :| e' in h && e'.ShredEvent? && e'.key.slot == slot && e'.at == MinOf(ShredTimes(h, slot));
    } else {
      e, e' :| e in h && OfSlot(e, slot) && e' in h && OfSlot(e', slot) && e.at != e'.at;
    }
  }

  lemma SameFirstShredAt(h: seq<Event>, h': seq<Event>, slot: u64)
    requires SeedFree(h, slot) && multiset(h') == multiset(h)
    ensures Earliest(SlotTimes(h', slot)) == Earliest(SlotTimes(h, slot))
  {
    SameElements(h, h');
    SlotRecorded(h, slot);
    SlotRecorded(h', slot);
    if SlotTimes(h, slot) != [] {
      var e := SeededBySome(h, h, slot);
      var e' := SeededBySome(h, h', slot);
    }
  }

  /** A slot's first_shred_at is the same for every order of recording the same
      events exactly when no slot event is earlier than the slot's earliest
      shred (or, without shreds, when all its events have one time). */
  lemma FirstShredAtOrderFree(h: seq<Event>, slot: u64)
    ensures (forall h' | multiset(h') == multiset(h) :: Earliest(SlotTimes(h', slot)) == Earliest(SlotTimes(h, slot)))
       <==> SeedFree(h, slot)
  {
    if SeedFree(h, slot) {
      forall h' | multiset(h') == multiset(h)
        ensures Earliest(SlotTimes(h', slot)) == Earliest(SlotTimes(h, slot))
      {
        SameFirstShredAt(h, h', slot);
      }
    } else {
      var e, e' := SeedsDiffer(h, slot);
      var one := SeededByAny(h, slot, e);
      var other := SeededByAny(h, slot, e');
    }
  }

  /** No event of the slot is earlier than the source's first entry, or none is
      earlier than the slot's earliest shred. */
  ghost predicate LatencyFree(h: seq<Event>, slot: u64, id: SourceId)
    requires EntryTimes(h, slot, id) != []
  {
    || (forall e | e in h && OfSlot(e, slot) :: MinOf(EntryTimes(h, slot, id)) <= e.at)
    || (ShredTimes(h, slot) != [] && SeedFree(h, slot))
  }

  function LatencyFromSeed(h: seq<Event>, slot: u64, id: SourceId, t: Instant): u64
    requires EntryTimes(h, slot, id) != []
  {
    AsU64(SaturatingSub(MinOf(EntryTimes(h, slot, id)), Seeded(h, slot, t)))
  }

  lemma LatencyIsFromSeed(h: seq<Event>, h': seq<Event>, slot: u64, id: SourceId, t: Instant)
    requires multiset(h') == multiset(h) && EntryTimes(h, slot, id) != []
    requires SlotTimes(h', slot) != [] && MinOf(SlotTimes(h', slot)) == Seeded(h, slot, t)
    ensures SlotLatencyIn(h', id)(slot) == Some(LatencyFromSeed(h, slot, id, t))
  {
    SameEntryTimes(h, h', slot, id);
  }

  /** If the earliest event of the slot is neither a shred nor the source's own
      entry, two choices of the first recorded event give two latencies. */
  lemma LatenciesDiffer(h: seq<Event>, slot: u64, id: SourceId) returns (e: Event, e': Event)
    requires EntryTimes(h, slot, id) != [] && !LatencyFree(h, slot, id)
    requires forall a, b | a in h && OfSlot(a, slot) && b in h && OfSlot(b, slot) :: a.at - b.at < TWO_TO_THE_64
    ensures e in h && OfSlot(e, slot) && e' in h && OfSlot(e', slot)
    ensures LatencyFromSeed(h, slot, id, e.at) != LatencyFromSeed(h, slot, id, e'.at)
  {
    EntryTimeMembers(h, slot, id, MinOf(EntryTimes(h, slot, id)));
    e := SlotEvent(id, slot, MinOf(EntryTimes(h, slot, id)));
    e' :| e' in h && OfSlot(e', slot) && e'.at < e.at;
    if ShredTimes(h, slot) != [] {
      var early :| early in h && OfSlot(early, slot) && early.at < MinOf(ShredTimes(h, slot));
      e' := if early.at < e'.at then early else e';
    }
    assert Seeded(h, slot, e'.at) == e'.at < Seeded(h, slot, e.at);
    DistancesDiffer(e.at, e'.at, Seeded(h, slot, e.at));
  }

  lemma LatenciesAgree(h: seq<Event>, slot: u64, id: SourceId, e: Event, e': Event)
    requires EntryTimes(h, slot, id) != [] && LatencyFree(h, slot, id)
    requires e in h && OfSlot(e, slot) && e' in h && OfSlot(e', slot)
    ensures LatencyFromSeed(h, slot, id, e.at) == LatencyFromSeed(h, slot, id, e'.at)
  {
    if ShredTimes(h, slot) != [] {
      ShredTimeMembers(h, slot, MinOf(ShredTimes(h, slot)));
    }
  }

  lemma SameSlotLatency(h: seq<Event>, h': seq<Event>, slot: u64, id: SourceId)
    requires EntryTimes(h, slot, id) != [] && LatencyFree(h, slot, id) && multiset(h') == multiset(h)
    ensures SlotLatencyIn(h', id)(slot) == SlotLatencyIn(h, id)(slot)
  {
    EntrySlotSeen(h, slot, id);
    SameEntryTimes(h, h', slot, id);
    EntrySlotSeen(h', slot, id);
    var e := SeededBySome(h, h, slot);
    var e' := SeededBySome(h, h', slot);
    LatencyIsFromSeed(h, h, slot, id, e.at);
    LatencyIsFromSeed(h, h', slot, id, e'.at);
    LatenciesAgree(h, slot, id, e, e');
  }

  /** A source's latency in a slot is the same for every order of recording the
      same events exactly when the slot's earliest event is one of its shreds,
      or the source's own entry. */
  lemma SlotLatencyOrderFree(h: seq<Event>, slot: u64, id: SourceId)
    requires EntryTimes(h, slot, id) != []
    requires forall a, b | a in h && OfSlot(a, slot) && b in h && OfSlot(b, slot) :: a.at - b.at < TWO_TO_THE_64
    ensures (forall h' | multiset(h') == multiset(h) :: SlotLatencyIn(h', id)(slot) == SlotLatencyIn(h, id)(slot))
       <==> LatencyFree(h, slot, id)
  {
    if LatencyFree(h, slot, id) {
      forall h' | multiset(h') == multiset(h) ensures SlotLatencyIn(h', id)(slot) == SlotLatencyIn(h, id)(slot) {
        SameSlotLatency(h, h', slot, id);
      }
    } else {
      var e, e' := LatenciesDiffer(h, slot, id);
      var one := SeededByAny(h, slot, e);
      var other := SeededByAny(h, slot, e');
      LatencyIsFromSeed(h, one, slot, id, e.at);
      LatencyIsFromSeed(h, other, slot, id, e'.at);
    }
  }
}
