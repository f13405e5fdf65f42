/** src/registry.rs: the event types, the drop counters and the registry, whose
    three tables are proved to be an exact index of all events ever recorded. */
module Registry {
  import opened Bytes
  import opened Sequences
  import opened Shred

  type SourceId = u32

  /** A point on the monotonic clock, in nanoseconds. */
  type Instant = int

  datatype Event =
    | ShredEvent(source: SourceId, key: ShredKey, at: Instant)
    | SlotEvent(source: SourceId, slot: u64, at: Instant)
    | GrpcLatencyEvent(source: SourceId, latency: u64)

  datatype Arrival = Arrival(source: SourceId, at: Instant)

  datatype ShredRecord = ShredRecord(firstSeen: Instant, firstSource: SourceId, arrivals: seq<Arrival>)

  datatype SlotRecord = SlotRecord(firstShredAt: Instant, entryArrivals: seq<Arrival>)

  // ---- What a history of recorded events says, table by table ----

  function From(source: SourceId): Event -> bool {
    (e: Event) => e.source == source
  }

  function ShredFrom(source: SourceId): Event -> bool {
    (e: Event) => e.ShredEvent? && e.source == source
  }

  /** All arrivals of one shred, in recording order. */
  function Arrivals(h: seq<Event>, k: ShredKey): seq<Arrival> {
    if h == [] then []
    else
      var e := Last(h);
      var before := Arrivals(Front(h), k);
      if e.ShredEvent? && e.key == k then before + [Arrival(e.source, e.at)] else before
  }

  function SlotOf(e: Event): u64
    requires !e.GrpcLatencyEvent?
  {
    if e.ShredEvent? then e.key.slot else e.slot
  }

  predicate OfSlot(e: Event, slot: u64) {
    (e.ShredEvent? && e.key.slot == slot) || (e.SlotEvent? && e.slot == slot)
  }

  /** The times that count towards a slot's first_shred_at: every shred of the
      slot, and the slot's first recorded event whatever its kind. */
  function SlotTimes(h: seq<Event>, slot: u64): seq<Instant> {
    if h == [] then []
    else
      var e := Last(h);
      var before := SlotTimes(Front(h), slot);
      if OfSlot(e, slot) && (e.ShredEvent? || before == []) then before + [e.at] else before
  }

  /** All slot events of one source for one slot. */
  function EntryTimes(h: seq<Event>, slot: u64, source: SourceId): seq<Instant> {
    if h == [] then []
    else
      var e := Last(h);
      var before := EntryTimes(Front(h), slot, source);
      if e.SlotEvent? && e.slot == slot && e.source == source then before + [e.at] else before
  }

  function Samples(h: seq<Event>, source: SourceId): seq<u64> {
    if h == [] then []
    else
      var e := Last(h);
      var before := Samples(Front(h), source);
      if e.GrpcLatencyEvent? && e.source == source then before + [e.latency] else before
  }

  ghost predicate ShredExact(rec: ShredRecord, arrivals: seq<Arrival>) {
    && rec.arrivals == arrivals
    && arrivals != []
    && rec.firstSeen == arrivals[0].at && rec.firstSource == arrivals[0].source
  }

  predicate OnePerSource(entries: seq<Arrival>) {
    forall i, j | 0 <= i < j < |entries| :: entries[i].source != entries[j].source
  }

  /** The first entry of a source. */
  function Find(entries: seq<Arrival>, source: SourceId): Option<Instant> {
    if entries == [] then None
    else if entries[0].source == source then Some(entries[0].at)
    else Find(entries[1..], source)
  }

  function Earliest(ts: seq<Instant>): Option<Instant> {
    if ts == [] then None else Some(MinOf(ts))
  }

  /** One entry per source that sent a slot event for the slot, and it is that source's earliest. */
  ghost predicate EntriesExact(entries: seq<Arrival>, h: seq<Event>, slot: u64) {
    && OnePerSource(entries)
    && forall id: SourceId :: Find(entries, id) == Earliest(EntryTimes(h, slot, id))
  }

  ghost predicate SlotExact(rec: SlotRecord, h: seq<Event>, slot: u64) {
    && Earliest(SlotTimes(h, slot)) == Some(rec.firstShredAt)
    && EntriesExact(rec.entryArrivals, h, slot)
  }

  // The tables hold exactly what the history says, and nothing else.

  ghost predicate ShredsExact(m: map<ShredKey, ShredRecord>, h: seq<Event>) {
    forall k: ShredKey ::
      && (k in m <==> Arrivals(h, k) != [])
      && (k in m ==> ShredExact(m[k], Arrivals(h, k)))
  }

  ghost predicate SlotsExact(m: map<u64, SlotRecord>, h: seq<Event>) {
    forall s: u64 ::
      && (s in m <==> SlotTimes(h, s) != [])
      && (s in m ==> SlotExact(m[s], h, s))
  }

  ghost predicate SamplesExact(m: map<SourceId, seq<u64>>, h: seq<Event>) {
    forall id: SourceId ::
      && (id in m <==> Samples(h, id) != [])
      && (id in m ==> m[id] == Samples(h, id))
  }

  datatype Tables = Tables(shreds: map<ShredKey, ShredRecord>, slots: map<u64, SlotRecord>,
                           grpcLatencies: map<SourceId, seq<u64>>)

  ghost predicate IsIndexOf(t: Tables, h: seq<Event>) {
    ShredsExact(t.shreds, h) && SlotsExact(t.slots, h) && SamplesExact(t.grpcLatencies, h)
  }

  /** How one more event extends each view. */
  lemma ArrivalsSnoc(h: seq<Event>, e: Event, k: ShredKey)
    ensures Arrivals(h + [e], k)
            == if e.ShredEvent? && e.key == k then Arrivals(h, k) + [Arrival(e.source, e.at)] else Arrivals(h, k)
  {
    Snoc(h, e);
  }

  lemma SlotTimesSnoc(h: seq<Event>, e: Event, slot: u64)
    ensures SlotTimes(h + [e], slot)
            == if OfSlot(e, slot) && (e.ShredEvent? || SlotTimes(h, slot) == []) then SlotTimes(h, slot) + [e.at]
               else SlotTimes(h, slot)
  {
    Snoc(h, e);
  }

  lemma EntryTimesSnoc(h: seq<Event>, e: Event, slot: u64, source: SourceId)
    ensures EntryTimes(h + [e], slot, source)
            == if e.SlotEvent? && e.slot == slot && e.source == source then EntryTimes(h, slot, source) + [e.at]
               else EntryTimes(h, slot, source)
  {
    Snoc(h, e);
  }

  lemma {:induction false} ArrivalsConcat(xs: seq<Event>, ys: seq<Event>, k: ShredKey)
    ensures Arrivals(xs + ys, k) == Arrivals(xs, k) + Arrivals(ys, k)
  {
    if ys == [] {
      assert xs + ys == xs;
    } else {
      ArrivalsConcat(xs, Front(ys), k);
      assert xs + ys == (xs + Front(ys)) + [Last(ys)];
      ArrivalsSnoc(xs + Front(ys), Last(ys), k);
    }
  }

  lemma ArrivalsOfOne(e: Event, k: ShredKey)
    ensures Arrivals([e], k) == if e.ShredEvent? && e.key == k then [Arrival(e.source, e.at)] else []
  {
    ArrivalsSnoc([], e, k);
    assert [] + [e] == [e];
  }

  // ---- Each table stays exact ----

  lemma ShredsKept(m: map<ShredKey, ShredRecord>, h: seq<Event>, e: Event)
    requires ShredsExact(m, h) && !e.ShredEvent?
    ensures ShredsExact(m, h + [e])
  {
  }

  lemma ShredsGrow(m: map<ShredKey, ShredRecord>, h: seq<Event>, e: Event, rec: ShredRecord)
    requires ShredsExact(m, h) && e.ShredEvent?
    requires rec == if e.key in m then m[e.key].(arrivals := m[e.key].arrivals + [Arrival(e.source, e.at)])
                    else ShredRecord(e.at, e.source, [Arrival(e.source, e.at)])
    ensures ShredsExact(m[e.key := rec], h + [e])
  {
  }

  lemma SamplesKept(m: map<SourceId, seq<u64>>, h: seq<Event>, e: Event)
    requires SamplesExact(m, h) && !e.GrpcLatencyEvent?
    ensures SamplesExact(m, h + [e])
  {
  }

  lemma SamplesGrow(m: map<SourceId, seq<u64>>, h: seq<Event>, e: Event)
    requires SamplesExact(m, h) && e.GrpcLatencyEvent?
    ensures SamplesExact(m[e.source := (if e.source in m then m[e.source] else []) + [e.latency]], h + [e])
  {
  }

  lemma EntriesKept(entries: seq<Arrival>, h: seq<Event>, e: Event, slot: u64)
    requires EntriesExact(entries, h, slot) && !(e.SlotEvent? && e.slot == slot)
    ensures EntriesExact(entries, h + [e], slot)
  {
  }

  lemma MinOfSnoc(ts: seq<int>, t: int)
    ensures MinOf(ts + [t]) == if ts == [] || t < MinOf(ts) then t else MinOf(ts)
  {
  }

  lemma NoEntriesYet(h: seq<Event>, slot: u64)
    requires SlotTimes(h, slot) == []
    ensures EntriesExact([], h, slot)
  {
  }

  function Updated(entries: seq<Arrival>, e: Event, i: nat): seq<Arrival>
    requires e.SlotEvent? && i <= |entries|
  {
    if i == |entries| then entries + [Arrival(e.source, e.at)]
    else if e.at < entries[i].at then entries[i := Arrival(e.source, e.at)]
    else entries
  }

  /** Replacing or appending a source's entry changes what is found for that source only. */
  lemma {:induction false} FindUpdated(entries: seq<Arrival>, i: nat, a: Arrival, id: SourceId)
    requires i <= |entries| && (forall j | 0 <= j < i :: entries[j].source != a.source)
    requires i < |entries| ==> entries[i].source == a.source
    ensures Find(entries, a.source) == if i < |entries| then Some(entries[i].at) else None
    ensures Find(if i < |entries| then entries[i := a] else entries + [a], id)
            == if id == a.source then Some(a.at) else Find(entries, id)
  {
    var updated := if i < |entries| then entries[i := a] else entries + [a];
    if i == 0 {
      assert entries != [] ==> updated[1..] == entries[1..];
    } else {
      assert updated[1..] == if i < |entries| then entries[1..][i - 1 := a] else entries[1..] + [a];
      assert updated[0] == entries[0];
      FindUpdated(entries[1..], i - 1, a, id);
    }
  }

  lemma EntriesUpdated(entries: seq<Arrival>, h: seq<Event>, e: Event, i: nat)
    requires e.SlotEvent? && EntriesExact(entries, h, e.slot) && i <= |entries|
    requires forall j | 0 <= j < i :: entries[j].source != e.source
    requires i < |entries| ==> entries[i].source == e.source
    ensures EntriesExact(Updated(entries, e, i), h + [e], e.slot)
  {
    var a := Arrival(e.source, e.at);
    var updated := Updated(entries, e, i);
    forall id: SourceId ensures Find(updated, id) == Earliest(EntryTimes(h + [e], e.slot, id)) {
      EntryTimesSnoc(h, e, e.slot, id);
      FindUpdated(entries, i, a, id);
      MinOfSnoc(EntryTimes(h, e.slot, e.source), e.at);
      assert Find(entries, e.source) == Earliest(EntryTimes(h, e.slot, e.source));
      assert Find(entries, id) == Earliest(EntryTimes(h, e.slot, id));
    }
    if updated != entries && i == |entries| {
      assert forall j | 0 <= j < |entries| :: updated[j] == entries[j];
    }
  }

  lemma OtherSlotsKept(m: map<u64, SlotRecord>, h: seq<Event>, e: Event, m': map<u64, SlotRecord>, slot: u64)
    requires SlotsExact(m, h) && !e.GrpcLatencyEvent? && OfSlot(e, slot)
    requires slot in m' && m' == m[slot := m'[slot]]
    requires SlotExact(m'[slot], h + [e], slot)
    ensures SlotsExact(m', h + [e])
  {
  }

  lemma SlotsKept(m: map<u64, SlotRecord>, h: seq<Event>, e: Event)
    requires SlotsExact(m, h) && e.GrpcLatencyEvent?
    ensures SlotsExact(m, h + [e])
  {
  }

  /** What record_shred leaves in the slot table. */
  lemma ShredSlotExact(m: map<u64, SlotRecord>, h: seq<Event>, e: Event, rec: SlotRecord)
    requires SlotsExact(m, h) && e.ShredEvent?
    requires var slot := e.key.slot;
             rec == if slot in m then m[slot].(firstShredAt := if e.at < m[slot].firstShredAt then e.at
                                                               else m[slot].firstShredAt)
                    else SlotRecord(e.at, [])
    ensures SlotExact(rec, h + [e], e.key.slot)
  {
    var slot := e.key.slot;
    SlotTimesSnoc(h, e, slot);
    MinOfSnoc(SlotTimes(h, slot), e.at);
    if slot !in m { NoEntriesYet(h, slot); }
    EntriesKept(rec.entryArrivals, h, e, slot);
  }

  /** What record_slot_event leaves in the slot table. */
  lemma EntrySlotExact(m: map<u64, SlotRecord>, h: seq<Event>, e: Event, rec: SlotRecord, i: nat)
    requires SlotsExact(m, h) && e.SlotEvent?
    requires var entries := if e.slot in m then m[e.slot].entryArrivals else [];
             && i <= |entries|
             && (forall j | 0 <= j < i :: entries[j].source != e.source)
             && (i < |entries| ==> entries[i].source == e.source)
             && rec.entryArrivals == Updated(entries, e, i)
    requires rec.firstShredAt == if e.slot in m then m[e.slot].firstShredAt else e.at
    ensures SlotExact(rec, h + [e], e.slot)
  {
    SlotTimesSnoc(h, e, e.slot);
    MinOfSnoc(SlotTimes(h, e.slot), e.at);
    if e.slot !in m { NoEntriesYet(h, e.slot); }
    EntriesUpdated(if e.slot in m then m[e.slot].entryArrivals else [], h, e, i);
  }

  lemma {:induction false} EntrySlotSeen(h: seq<Event>, slot: u64, source: SourceId)
    requires EntryTimes(h, slot, source) != []
    ensures SlotTimes(h, slot) != []
  {
    if EntryTimes(Front(h), slot, source) == [] {
    } else {
      EntrySlotSeen(Front(h), slot, source);
    }
  }

  // ---- What recording one event does to the tables ----

  ghost function AfterShred(t: Tables, e: Event): Tables
    requires e.ShredEvent?
  {
    var slot, arrival := e.key.slot, Arrival(e.source, e.at);
    Tables(
      if e.key in t.shreds then t.shreds[e.key := t.shreds[e.key].(arrivals := t.shreds[e.key].arrivals + [arrival])]
      else t.shreds[e.key := ShredRecord(e.at, e.source, [arrival])],
      if slot !in t.slots then t.slots[slot := SlotRecord(e.at, [])]
      else if e.at < t.slots[slot].firstShredAt then t.slots[slot := t.slots[slot].(firstShredAt := e.at)]
      else t.slots,
      t.grpcLatencies)
  }

  lemma OneSlotTouched(t: Tables, e: Event)
    requires e.ShredEvent?
    ensures var m, slot := AfterShred(t, e).slots, e.key.slot;
            slot in m && m == t.slots[slot := m[slot]]
  {
  }

  lemma SlotsAfterShred(t: Tables, h: seq<Event>, e: Event)
    requires e.ShredEvent? && SlotsExact(t.slots, h)
    ensures SlotsExact(AfterShred(t, e).slots, h + [e])
  {
    OneSlotTouched(t, e);
    var m, slot := AfterShred(t, e).slots, e.key.slot;
    ShredSlotExact(t.slots, h, e, m[slot]);
    OtherSlotsKept(t.slots, h, e, m, slot);
  }

  lemma ShredIndexed(t: Tables, h: seq<Event>, e: Event)
    requires e.ShredEvent? && IsIndexOf(t, h)
    ensures IsIndexOf(AfterShred(t, e), h + [e])
  {
    ShredsGrow(t.shreds, h, e, AfterShred(t, e).shreds[e.key]);
    SamplesKept(t.grpcLatencies, h, e);
    SlotsAfterShred(t, h, e);
  }

  ghost function EntriesOf(t: Tables, slot: u64): seq<Arrival> {
    if slot in t.slots then t.slots[slot].entryArrivals else []
  }

  ghost function AfterSlotEvent(t: Tables, e: Event, i: nat): Tables
    requires e.SlotEvent? && i <= |EntriesOf(t, e.slot)|
  {
    var first := if e.slot in t.slots then t.slots[e.slot].firstShredAt else e.at;
    t.(slots := t.slots[e.slot := SlotRecord(first, Updated(EntriesOf(t, e.slot), e, i))])
  }

  lemma SlotEventIndexed(t: Tables, h: seq<Event>, e: Event, i: nat)
    requires e.SlotEvent? && IsIndexOf(t, h) && i <= |EntriesOf(t, e.slot)|
    requires forall j | 0 <= j < i :: EntriesOf(t, e.slot)[j].source != e.source
    requires i < |EntriesOf(t, e.slot)| ==> EntriesOf(t, e.slot)[i].source == e.source
    ensures IsIndexOf(AfterSlotEvent(t, e, i), h + [e])
  {
    var t' := AfterSlotEvent(t, e, i);
    ShredsKept(t.shreds, h, e);
    SamplesKept(t.grpcLatencies, h, e);
    EntrySlotExact(t.slots, h, e, t'.slots[e.slot], i);
    OtherSlotsKept(t.slots, h, e, t'.slots, e.slot);
  }

  // ---- Drop counters ----

  class DropCounters {
    var inner: map<SourceId, nat>

    constructor ()
      ensures inner == map[]
    {
      inner := map[];
    }

    function Get(source: SourceId): nat
      reads this
    {
      if source in inner then inner[source] else 0
    }

    method Inc(source: SourceId)
      modifies this
      ensures inner == old(inner[source := Get(source) + 1])
      ensures forall id: SourceId :: Get(id) == old(Get(id)) + if id == source then 1 else 0
    {
      inner := inner[source := (if source in inner then inner[source] else 0) + 1];
    }
  }

  // ---- The registry ----

  /** The index of a source's entry, or the length of the list. */
  method Position(entries: seq<Arrival>, source: SourceId) returns (i: nat)
    ensures i <= |entries|
    ensures forall j | 0 <= j < i :: entries[j].source != source
    ensures i < |entries| ==> entries[i].source == source
  {
    i := 0;
    while i < |entries| && entries[i].source != source
      invariant i <= |entries|
      invariant forall j | 0 <= j < i :: entries[j].source != source
    {
      i := i + 1;
    }
  }

  class Registry {
    var shreds: map<ShredKey, ShredRecord>
    var slots: map<u64, SlotRecord>
    var grpcLatencies: map<SourceId, seq<u64>>
    ghost var history: seq<Event>

    ghost function View(): Tables
      reads this
    {
      Tables(shreds, slots, grpcLatencies)
    }

    ghost predicate Valid()
      reads this
    {
      IsIndexOf(View(), history)
    }

    constructor ()
      ensures Valid() && history == []
    {
      shreds, slots, grpcLatencies, history := map[], map[], map[], [];
    }

    method RecordGrpcLatency(e: Event)
      requires Valid() && e.GrpcLatencyEvent?
      modifies this
      ensures Valid() && history == old(history) + [e]
    {
      SamplesGrow(grpcLatencies, history, e);
      ShredsKept(shreds, history, e);
      SlotsKept(slots, history, e);
      var samples := if e.source in grpcLatencies then grpcLatencies[e.source] else [];
      grpcLatencies := grpcLatencies[e.source := samples + [e.latency]];
      history := history + [e];
    }

    method RecordShred(e: Event)
      requires Valid() && e.ShredEvent?
      modifies this
      ensures Valid() && history == old(history) + [e]
    {
      var slot := e.key.slot;
      if e.key in shreds {
        var rec := shreds[e.key];
        shreds := shreds[e.key := rec.(arrivals := rec.arrivals + [Arrival(e.source, e.at)])];
      } else {
        shreds := shreds[e.key := ShredRecord(e.at, e.source, [Arrival(e.source, e.at)])];
      }
      if slot in slots {
        if e.at < slots[slot].firstShredAt {
          slots := slots[slot := slots[slot].(firstShredAt := e.at)];
        }
      } else {
        slots := slots[slot := SlotRecord(e.at, [])];
      }
      assert View() == AfterShred(old(View()), e);
      ShredIndexed(old(View()), history, e);
      history := history + [e];
    }

    method RecordSlotEvent(e: Event)
      requires Valid() && e.SlotEvent?
      modifies this
      ensures Valid() && history == old(history) + [e]
    {
      ghost var at := 0;  // where the source's entry is, or the end of the list
      if e.slot in slots {
        var rec := slots[e.slot];
        var i := Position(rec.entryArrivals, e.source);
        if i < |rec.entryArrivals| {
          if e.at < rec.entryArrivals[i].at {
            rec := rec.(entryArrivals := rec.entryArrivals[i := Arrival(e.source, e.at)]);
          }
        } else {
          rec := rec.(entryArrivals := rec.entryArrivals + [Arrival(e.source, e.at)]);
        }
        slots := slots[e.slot := rec];
        at := i;
      } else {
        slots := slots[e.slot := SlotRecord(e.at, [Arrival(e.source, e.at)])];
      }
      assert slots[e.slot].entryArrivals == Updated(EntriesOf(old(View()), e.slot), e, at);
      assert View() == AfterSlotEvent(old(View()), e, at);
      SlotEventIndexed(old(View()), history, e, at);
      history := history + [e];
    }
  }

  // ---- What the slot table means ----

  /** The times of a slot's shreds alone. */
  function ShredTimes(h: seq<Event>, slot: u64): seq<Instant> {
    if h == [] then []
    else
      var e := Last(h);
      var before := ShredTimes(Front(h), slot);
      if e.ShredEvent? && e.key.slot == slot then before + [e.at] else before
  }

  lemma ShredTimesSnoc(h: seq<Event>, e: Event, slot: u64)
    ensures ShredTimes(h + [e], slot)
            == if e.ShredEvent? && e.key.slot == slot then ShredTimes(h, slot) + [e.at] else ShredTimes(h, slot)
  {
    Snoc(h, e);
  }

  /** A slot's times are its first recorded event followed by its shreds' times. */
  lemma {:induction false} SlotTimesShape(h: seq<Event>, slot: u64)
    ensures SlotTimes(h, slot) == [] ==> ShredTimes(h, slot) == []
    ensures SlotTimes(h, slot) != [] ==>
              || SlotTimes(h, slot) == ShredTimes(h, slot)
              || SlotTimes(h, slot) == [SlotTimes(h, slot)[0]] + ShredTimes(h, slot)
  {
    if h == [] {
    } else {
      SlotTimesShape(Front(h), slot);
    }
  }

  lemma MinOfSeeded(all: seq<int>, own: seq<int>)
    requires own != [] && all != [] && (all == own || all == [all[0]] + own)
    ensures MinOf(all) == if all[0] < MinOf(own) then all[0] else MinOf(own)
  {
  }

  /** first_shred_at is documented as the earliest shred of the slot. It is that
      exactly when the slot's first recorded event, which a slot event may be,
      is no earlier than the slot's earliest shred. */
  lemma FirstShredAtExact(h: seq<Event>, slot: u64)
    requires ShredTimes(h, slot) != []
    ensures SlotTimes(h, slot) != []
    ensures MinOf(SlotTimes(h, slot)) == MinOf(ShredTimes(h, slot))
       <==> SlotTimes(h, slot)[0] >= MinOf(ShredTimes(h, slot))
  {
    SlotTimesShape(h, slot);
    MinOfSeeded(SlotTimes(h, slot), ShredTimes(h, slot));
  }

  /** A slot event recorded first, and earlier than every shred, is taken for a shred. */
  lemma FirstShredAtMayPrecedeShreds()
    ensures var h := [SlotEvent(9, 200, 5), ShredEvent(1, ShredKey(200, 0, Data), 10)];
            ShredTimes(h, 200) == [10] && MinOf(SlotTimes(h, 200)) == 5
  {
  }

  /** Every recorded shred's slot is in the slot table, no later than any arrival of the shred. */
  lemma {:induction false} SlotNoLaterThanShreds(h: seq<Event>, k: ShredKey)
    ensures Arrivals(h, k) != [] ==> SlotTimes(h, k.slot) != []
    ensures forall a | a in Arrivals(h, k) :: MinOf(SlotTimes(h, k.slot)) <= a.at
  {
    if h == [] {
    } else {
      SlotNoLaterThanShreds(Front(h), k);
      assert forall t | t in SlotTimes(Front(h), k.slot) :: t in SlotTimes(h, k.slot);
    }
  }
}
