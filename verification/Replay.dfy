/** What the statistics say about the events that were recorded: every tally of
    a source as the size of a set that the history alone defines. */
module Replay {
  import opened Bytes
  import opened Sequences
  import opened Shred
  import opened Registry
  import opened Keyed
  import opened Stats

  // ---- The keys a history holds ----

  function Keys(h: seq<Event>): set<ShredKey> {
    set e | e in h && e.ShredEvent? :: e.key
  }

  function KeysFrom(h: seq<Event>, id: SourceId): set<ShredKey> {
    set e | e in h && e.ShredEvent? && e.source == id :: e.key
  }

  function KeysTyped(h: seq<Event>, id: SourceId, shredType: ShredType): set<ShredKey> {
    set k | k in KeysFrom(h, id) && k.shredType == shredType
  }

  lemma {:induction false} ArrivalMembers(h: seq<Event>, k: ShredKey, a: Arrival)
    ensures a in Arrivals(h, k) <==> ShredEvent(a.source, k, a.at) in h
  {
    if h == [] {
    } else {
      ArrivalMembers(Front(h), k, a);
      assert h == Front(h) + [Last(h)];
    }
  }

  lemma KeyRecorded(h: seq<Event>, k: ShredKey)
    ensures Arrivals(h, k) != [] <==> k in Keys(h)
  {
  }

  lemma {:induction false} KeyReceived(h: seq<Event>, k: ShredKey, id: SourceId)
    ensures TimesFrom(Arrivals(h, k), id) != [] <==> k in KeysFrom(h, id)
  {
    if h == [] {
    } else {
      KeyReceived(Front(h), k, id);
      assert h == Front(h) + [Last(h)];
      assert k in KeysFrom(h, id) <==>
             k in KeysFrom(Front(h), id) || (Last(h).ShredEvent? && Last(h).key == k && Last(h).source == id);
    }
  }

  /** The record of a shred with these arrivals. */
  function RecordOf(arrivals: seq<Arrival>): ShredRecord
    requires arrivals != []
  {
    ShredRecord(arrivals[0].at, arrivals[0].source, arrivals)
  }

  /** A source's latency for a shred, if it delivered it. */
  function LatencyOf(arrivals: seq<Arrival>, id: SourceId): Option<u64> {
    if TimesFrom(arrivals, id) == [] then None else Some(Delta(RecordOf(arrivals), id))
  }

  function LatencyIn(h: seq<Event>, id: SourceId): ShredKey -> Option<u64> {
    (k: ShredKey) => LatencyOf(Arrivals(h, k), id)
  }

  /** The shreds for which a source has one given latency; those with latency 0 it won. */
  function KeysAt(h: seq<Event>, id: SourceId, latency: u64): set<ShredKey> {
    set k | k in KeysFrom(h, id) && LatencyIn(h, id)(k) == Some(latency)
  }

  // ---- From entries to keys ----

  /** A source's statistics as the recorded events define them. */
  ghost predicate Reports(st: SourceStats, h: seq<Event>, id: SourceId) {
    && st.id == id
    && st.received == |KeysFrom(h, id)|
    && st.missed == |Keys(h)| - |KeysFrom(h, id)|
    && st.dataShreds == |KeysTyped(h, id, Data)|
    && st.codeShreds == |KeysTyped(h, id, Code)|
    && st.received + st.dupes == CountIf(h, ShredFrom(id))
    && st.wins == |KeysAt(h, id, 0)|
    && |st.latency| == st.received
    && forall v: u64 :: multiset(st.latency)[v] == |KeysAt(h, id, v)|
  }

  /** Equal numbers of shreds at every latency mean equal wins and one bag of latencies. */
  lemma ReportsAgree(st: SourceStats, h: seq<Event>, st': SourceStats, h': seq<Event>, id: SourceId)
    requires Reports(st, h, id) && Reports(st', h', id)
    requires forall v: u64 :: |KeysAt(h, id, v)| == |KeysAt(h', id, v)|
    ensures st.wins == st'.wins && multiset(st.latency) == multiset(st'.latency)
  {
  }

  lemma EnumerationKeys(entries: seq<Entry>, m: map<ShredKey, ShredRecord>, h: seq<Event>)
    requires Enumerates(entries, m) && ShredsExact(m, h)
    ensures DistinctBy(entries, KeyOf) && m.Keys == Keys(h) && |entries| == |Keys(h)|
    ensures forall e | e in entries ::
              e.key in Keys(h) && Arrivals(h, e.key) != [] && e.rec == RecordOf(Arrivals(h, e.key))
    ensures forall k | k in Keys(h) :: k in m && Entry(k, m[k]) in entries
  {
    forall k: ShredKey ensures k in m <==> k in Keys(h) { KeyRecorded(h, k); }
    EnumerationSize(entries, m);
  }

  /** Whatever is decided by the key is counted over keys. */
  lemma KeysCounted(entries: seq<Entry>, m: map<ShredKey, ShredRecord>, h: seq<Event>, p: Entry -> bool,
                    keys: set<ShredKey>)
    requires Enumerates(entries, m) && ShredsExact(m, h)
    requires keys <= Keys(h) && forall e | e in entries :: p(e) <==> e.key in keys
    ensures CountIf(entries, p) == |keys|
  {
    EnumerationKeys(entries, m, h);
    CountKeys(entries, KeyOf, p);
    forall k | k in keys ensures k in KeysWhere(entries, KeyOf, p) {
      assert Entry(k, m[k]) in entries && KeyOf(Entry(k, m[k])) == k;
    }
    assert KeysWhere(entries, KeyOf, p) == keys;
  }

  lemma ReceivedKeys(entries: seq<Entry>, m: map<ShredKey, ShredRecord>, h: seq<Event>, id: SourceId)
    requires Enumerates(entries, m) && ShredsExact(m, h)
    ensures CountIf(entries, ReceivedFrom(id)) == |KeysFrom(h, id)|
    ensures forall shredType :: CountIf(entries, TypedFrom(id, shredType)) == |KeysTyped(h, id, shredType)|
  {
    EnumerationKeys(entries, m, h);
    forall k: ShredKey ensures TimesFrom(Arrivals(h, k), id) != [] <==> k in KeysFrom(h, id) {
      KeyReceived(h, k, id);
    }
    KeysCounted(entries, m, h, ReceivedFrom(id), KeysFrom(h, id));
    forall shredType ensures CountIf(entries, TypedFrom(id, shredType)) == |KeysTyped(h, id, shredType)| {
      KeysCounted(entries, m, h, TypedFrom(id, shredType), KeysTyped(h, id, shredType));
    }
  }

  lemma LatencyKeys(entries: seq<Entry>, m: map<ShredKey, ShredRecord>, h: seq<Event>, id: SourceId, latency: u64)
    requires Enumerates(entries, m) && ShredsExact(m, h)
    ensures multiset(Latencies(entries, id))[latency] == |KeysAt(h, id, latency)|
  {
    EnumerationKeys(entries, m, h);
    PresentCount(entries, LatencyFrom(id), latency);
    forall e | e in entries ensures Gives(LatencyFrom(id), latency)(e) <==> e.key in KeysAt(h, id, latency) {
      KeyReceived(h, e.key, id);
    }
    KeysCounted(entries, m, h, Gives(LatencyFrom(id), latency), KeysAt(h, id, latency));
  }

  lemma ZerosCounted(entries: seq<Entry>, id: SourceId)
    ensures CountIf(entries, WonBy(id)) == multiset(Latencies(entries, id))[0]
  {
    PresentCount(entries, LatencyFrom(id), 0);
    CountIfSame(entries, WonBy(id), Gives(LatencyFrom(id), 0));
  }

  // ---- Every recorded shred is an arrival of exactly one key ----

  function ShredFromAmong(id: SourceId, keys: set<ShredKey>): Event -> bool {
    (e: Event) => e.ShredEvent? && e.source == id && e.key in keys
  }

  function KeySet(entries: seq<Entry>): set<ShredKey> {
    set e | e in entries :: e.key
  }

  lemma {:induction false} OneMoreKey(h: seq<Event>, id: SourceId, keys: set<ShredKey>, k: ShredKey)
    requires k !in keys
    ensures CountIf(h, ShredFromAmong(id, keys + {k}))
            == CountIf(h, ShredFromAmong(id, keys)) + |TimesFrom(Arrivals(h, k), id)|
  {
    if h == [] {
    } else {
      OneMoreKey(Front(h), id, keys, k);
    }
  }

  lemma {:induction false} NoneAmong(h: seq<Event>, id: SourceId)
    ensures CountIf(h, ShredFromAmong(id, {})) == 0
  {
    if h == [] {
    } else {
      NoneAmong(Front(h), id);
    }
  }

  lemma {:induction false} ArrivalsAmong(entries: seq<Entry>, h: seq<Event>, id: SourceId)
    requires DistinctBy(entries, KeyOf)
    requires forall e | e in entries :: e.rec.arrivals == Arrivals(h, e.key)
    ensures SumOf(entries, ArrivalsFrom(id)) == CountIf(h, ShredFromAmong(id, KeySet(entries)))
  {
    if entries == [] {
      NoneAmong(h, id);
      assert KeySet(entries) == {};
    } else {
      var before, e := Front(entries), Last(entries);
      assert entries == before + [e];
      ArrivalsAmong(before, h, id);
      assert KeySet(entries) == KeySet(before) + {e.key};
      assert e.key !in KeySet(before) by {
        assert forall i | 0 <= i < |before| :: KeyOf(entries[i]) != KeyOf(e);
      }
      OneMoreKey(h, id, KeySet(before), e.key);
    }
  }

  lemma ArrivalTotal(entries: seq<Entry>, m: map<ShredKey, ShredRecord>, h: seq<Event>, id: SourceId)
    requires Enumerates(entries, m) && ShredsExact(m, h)
    ensures SumOf(entries, ArrivalsFrom(id)) == CountIf(h, ShredFrom(id))
  {
    EnumerationKeys(entries, m, h);
    ArrivalsAmong(entries, h, id);
    forall e | e in h && e.ShredEvent? ensures e.key in KeySet(entries) {
      assert Entry(e.key, m[e.key]) in entries;
    }
    CountIfSame(h, ShredFromAmong(id, KeySet(entries)), ShredFrom(id));
  }

  // ---- The shred-level tallies ----

  /** The statistics in terms of the recorded events alone. */
  lemma TalliesFromHistory(entries: seq<Entry>, m: map<ShredKey, ShredRecord>, h: seq<Event>,
                           id: SourceId, st: SourceStats)
    requires Enumerates(entries, m) && ShredsExact(m, h) && Tallies(st, entries, id)
    ensures Reports(st, h, id) && |m| == |Keys(h)|
  {
    EnumerationKeys(entries, m, h);
    EnumerationSize(entries, m);
    ReceivedKeys(entries, m, h, id);
    CountingLaws(entries, id, st);
    ArrivalTotal(entries, m, h, id);
    ZerosCounted(entries, id);
    forall v: u64 ensures multiset(st.latency)[v] == |KeysAt(h, id, v)| {
      LatencyKeys(entries, m, h, id, v);
    }
  }

  // ---- The slots a history holds ----

  function SlotsIn(h: seq<Event>): set<u64> {
    set e | e in h && !e.GrpcLatencyEvent? :: SlotOf(e)
  }

  /** The slots for which a source sent an event. */
  function SlotsFrom(h: seq<Event>, id: SourceId): set<u64> {
    set e | e in h && e.SlotEvent? && e.source == id :: e.slot
  }

  lemma {:induction false} SlotRecorded(h: seq<Event>, slot: u64)
    ensures SlotTimes(h, slot) != [] <==> exists e :: e in h && OfSlot(e, slot)
  {
    if h == [] {
    } else {
      SlotRecorded(Front(h), slot);
      assert h == Front(h) + [Last(h)];
    }
  }

  lemma {:induction false} EntryTimeMembers(h: seq<Event>, slot: u64, id: SourceId, t: Instant)
    ensures t in EntryTimes(h, slot, id) <==> SlotEvent(id, slot, t) in h
  {
    if h == [] {
    } else {
      EntryTimeMembers(Front(h), slot, id, t);
      assert h == Front(h) + [Last(h)];
    }
  }

  lemma SlotSeen(h: seq<Event>, slot: u64, id: SourceId)
    ensures EntryTimes(h, slot, id) != [] <==> slot in SlotsFrom(h, id)
    ensures SlotTimes(h, slot) != [] <==> slot in SlotsIn(h)
    ensures slot in SlotsFrom(h, id) ==> slot in SlotsIn(h)
  {
    SlotRecorded(h, slot);
    forall t ensures t in EntryTimes(h, slot, id) <==> SlotEvent(id, slot, t) in h {
      EntryTimeMembers(h, slot, id, t);
    }
    if EntryTimes(h, slot, id) != [] {
      assert EntryTimes(h, slot, id)[0] in EntryTimes(h, slot, id);
    }
    if e :| e in h && e.SlotEvent? && e.source == id && e.slot == slot {
      assert e.at in EntryTimes(h, slot, id);
    }
  }

  /** A source's latency in each slot that it sent an event for. */
  function SlotLatencyIn(h: seq<Event>, id: SourceId): u64 -> Option<u64> {
    (slot: u64) =>
      if EntryTimes(h, slot, id) == [] then None
      else
        EntrySlotSeen(h, slot, id);
        Some(AsU64(SaturatingSub(MinOf(EntryTimes(h, slot, id)), MinOf(SlotTimes(h, slot)))))
  }

  function SlotsAt(h: seq<Event>, id: SourceId, latency: u64): set<u64> {
    set s | s in SlotsFrom(h, id) && SlotLatencyIn(h, id)(s) == Some(latency)
  }

  /** An entry source's statistics as the recorded events define them. */
  ghost predicate SlotReports(st: EntrySourceStats, h: seq<Event>, id: SourceId) {
    && st.id == id
    && st.slotsSeen == |SlotsFrom(h, id)|
    && |st.latency| == st.slotsSeen
    && forall v: u64 :: multiset(st.latency)[v] == |SlotsAt(h, id, v)|
  }

  lemma SlotReportsAgree(st: EntrySourceStats, h: seq<Event>, st': EntrySourceStats, h': seq<Event>, id: SourceId)
    requires SlotReports(st, h, id) && SlotReports(st', h', id)
    requires forall v: u64 :: |SlotsAt(h, id, v)| == |SlotsAt(h', id, v)|
    ensures multiset(st.latency) == multiset(st'.latency)
  {
  }

  lemma SlotEnumerationKeys(entries: seq<SlotEntry>, m: map<u64, SlotRecord>, h: seq<Event>, id: SourceId)
    requires EnumeratesSlots(entries, m) && SlotsExact(m, h)
    ensures DistinctBy(entries, SlotKeyOf) && m.Keys == SlotsIn(h) && |entries| == |SlotsIn(h)|
    ensures forall e | e in entries :: SlotLatencyFrom(id)(e) == SlotLatencyIn(h, id)(e.slot)
    ensures forall s | s in SlotsIn(h) :: s in m && SlotEntry(s, m[s]) in entries
  {
    forall s: u64 ensures s in m <==> s in SlotsIn(h) { SlotSeen(h, s, id); }
    SlotEnumerationSize(entries, m);
    forall e | e in entries ensures SlotLatencyFrom(id)(e) == SlotLatencyIn(h, id)(e.slot) {
      assert SlotExact(e.rec, h, e.slot);
      assert Find(e.rec.entryArrivals, id) == Earliest(EntryTimes(h, e.slot, id));
    }
  }

  lemma SlotsCounted(entries: seq<SlotEntry>, m: map<u64, SlotRecord>, h: seq<Event>, id: SourceId,
                     p: SlotEntry -> bool, slots: set<u64>)
    requires EnumeratesSlots(entries, m) && SlotsExact(m, h)
    requires slots <= SlotsIn(h) && forall e | e in entries :: p(e) <==> e.slot in slots
    ensures CountIf(entries, p) == |slots|
  {
    SlotEnumerationKeys(entries, m, h, id);
    CountKeys(entries, SlotKeyOf, p);
    forall s | s in slots ensures s in KeysWhere(entries, SlotKeyOf, p) {
      assert SlotEntry(s, m[s]) in entries && SlotKeyOf(SlotEntry(s, m[s])) == s;
    }
    assert KeysWhere(entries, SlotKeyOf, p) == slots;
  }

  lemma SlotLatencyKeys(entries: seq<SlotEntry>, m: map<u64, SlotRecord>, h: seq<Event>, id: SourceId, latency: u64)
    requires EnumeratesSlots(entries, m) && SlotsExact(m, h)
    ensures multiset(SlotLatencies(entries, id))[latency] == |SlotsAt(h, id, latency)|
  {
    SlotEnumerationKeys(entries, m, h, id);
    PresentCount(entries, SlotLatencyFrom(id), latency);
    forall s: u64 ensures s in SlotsFrom(h, id) ==> s in SlotsIn(h) { SlotSeen(h, s, id); }
    forall e | e in entries ensures Gives(SlotLatencyFrom(id), latency)(e) <==> e.slot in SlotsAt(h, id, latency) {
      SlotSeen(h, e.slot, id);
    }
    SlotsCounted(entries, m, h, id, Gives(SlotLatencyFrom(id), latency), SlotsAt(h, id, latency));
  }

  /** The entry-level statistics in terms of the recorded events alone. */
  lemma SlotTalliesFromHistory(entries: seq<SlotEntry>, m: map<u64, SlotRecord>, h: seq<Event>,
                               id: SourceId, st: EntrySourceStats)
    requires EnumeratesSlots(entries, m) && SlotsExact(m, h) && SlotTallies(st, entries, id)
    ensures SlotReports(st, h, id) && |m| == |SlotsIn(h)|
  {
    SlotEnumerationKeys(entries, m, h, id);
    SlotEnumerationSize(entries, m);
    SlotCountingLaws(entries, m, id, st);
    forall s: u64 ensures s in SlotsFrom(h, id) ==> s in SlotsIn(h) { SlotSeen(h, s, id); }
    forall e | e in entries ensures SeenBy(id)(e) <==> e.slot in SlotsFrom(h, id) {
      SlotSeen(h, e.slot, id);
      assert SlotLatencyFrom(id)(e) == SlotLatencyIn(h, id)(e.slot);
    }
    SlotsCounted(entries, m, h, id, SeenBy(id), SlotsFrom(h, id));
    forall v: u64 ensures multiset(st.latency)[v] == |SlotsAt(h, id, v)| {
      SlotLatencyKeys(entries, m, h, id, v);
    }
  }

  // ---- Independence of the enumeration ----

  /** Two enumerations of one table give the same statistics up to the order of the samples. */
  lemma EnumerationIrrelevant(entries: seq<Entry>, entries': seq<Entry>, m: map<ShredKey, ShredRecord>, id: SourceId)
    requires Enumerates(entries, m) && Enumerates(entries', m)
    ensures multiset(Latencies(entries, id)) == multiset(Latencies(entries', id))
    ensures CountIf(entries, WonBy(id)) == CountIf(entries', WonBy(id))
    ensures |entries| == |entries'|
  {
    EnumerationSize(entries, m);
    EnumerationSize(entries', m);
    SameValues(entries, entries', KeyOf, LatencyFrom(id));
    ZerosCounted(entries, id);
    ZerosCounted(entries', id);
  }

  lemma SlotEnumerationIrrelevant(entries: seq<SlotEntry>, entries': seq<SlotEntry>, m: map<u64, SlotRecord>,
                                  id: SourceId)
    requires EnumeratesSlots(entries, m) && EnumeratesSlots(entries', m)
    ensures multiset(SlotLatencies(entries, id)) == multiset(SlotLatencies(entries', id))
    ensures |entries| == |entries'|
  {
    SlotEnumerationSize(entries, m);
    SlotEnumerationSize(entries', m);
    SameValues(entries, entries', SlotKeyOf, SlotLatencyFrom(id));
  }
}
