/** The message loop of src/sources/yellowstone.rs: the pruned index of recent
    entries and the latencies measured against it. */
module Yellowstone {
  import opened Bytes
  import opened Sequences
  import opened Registry

  const WINDOW: nat := 300

  datatype EntryRecord = EntryRecord(startingTxIndex: u64, txCount: u64, receivedAt: Instant)

  datatype Update =
    | SlotUpdate(slot: u64, firstShredReceived: bool)
    | EntryUpdate(slot: u64, startingTxIndex: u64, txCount: u64)
    | AccountUpdate(slot: u64, isStartup: bool)
    | OtherUpdate

  // ---- The unbounded history a connection has seen ----

  datatype Seen = Seen(slot: u64, record: EntryRecord)

  function ReceivedFor(seen: seq<Seen>, slot: u64): seq<EntryRecord> {
    if seen == [] then []
    else if Last(seen).slot == slot then ReceivedFor(Front(seen), slot) + [Last(seen).record]
    else ReceivedFor(Front(seen), slot)
  }

  function MaxSlot(seen: seq<Seen>): u64 {
    if seen == [] then 0
    else
      var before := MaxSlot(Front(seen));
      if Last(seen).slot > before then Last(seen).slot else before
  }

  lemma ReceivedSnoc(seen: seq<Seen>, x: Seen, slot: u64)
    ensures ReceivedFor(seen + [x], slot)
            == if x.slot == slot then ReceivedFor(seen, slot) + [x.record] else ReceivedFor(seen, slot)
    ensures MaxSlot(seen + [x]) == if x.slot > MaxSlot(seen) then x.slot else MaxSlot(seen)
  {
    Snoc(seen, x);
  }

  predicate Recent(slot: u64, maxSlot: u64) {
    slot + WINDOW >= maxSlot
  }

  /** All entries ever received for a recent slot, and nothing for any other. */
  ghost predicate IsWindow(m: map<u64, seq<EntryRecord>>, seen: seq<Seen>) {
    forall slot: u64 ::
      && (slot in m <==> ReceivedFor(seen, slot) != [] && Recent(slot, MaxSlot(seen)))
      && (slot in m ==> m[slot] == ReceivedFor(seen, slot))
  }

  lemma {:induction false} SlotsUpToMax(seen: seq<Seen>, slot: u64)
    requires ReceivedFor(seen, slot) != []
    ensures slot <= MaxSlot(seen)
  {
    if Last(seen).slot == slot {
    } else {
      SlotsUpToMax(Front(seen), slot);
    }
  }

  lemma {:induction false} RangeSize(s: set<u64>, low: nat, high: nat)
    requires low <= high && forall x | x in s :: low <= x < high
    ensures |s| <= high - low
  {
    if low == high {
      assert s == {};
    } else {
      RangeSize(s - {high - 1}, low, high - 1);
      assert s <= (s - {high - 1}) + {high - 1};
    }
  }

  /** The window holds at most 301 slots, whatever was received. */
  lemma WindowBounded(m: map<u64, seq<EntryRecord>>, seen: seq<Seen>)
    requires IsWindow(m, seen)
    ensures |m| <= WINDOW + 1
  {
    var high: int := MaxSlot(seen);
    forall slot | slot in m.Keys ensures SaturatingSub(high, WINDOW) <= slot < high + 1 {
      SlotsUpToMax(seen, slot);
    }
    RangeSize(m.Keys, SaturatingSub(high, WINDOW), high + 1);
  }

  function Pushed(m: map<u64, seq<EntryRecord>>, x: Seen): map<u64, seq<EntryRecord>> {
    m[x.slot := (if x.slot in m then m[x.slot] else []) + [x.record]]
  }

  function Pruned(m: map<u64, seq<EntryRecord>>, maxSlot: u64): map<u64, seq<EntryRecord>> {
    map s | s in m && Recent(s, maxSlot) :: m[s]
  }

  lemma PrunedAs(m: map<u64, seq<EntryRecord>>, maxSlot: u64)
    ensures Pruned(m, maxSlot) == if maxSlot > 300 then map s | s in m && s >= maxSlot - 300 :: m[s] else m
  {
  }

  /** Pushing and pruning keep the window exact: a slot that falls out is never
      recent again, so nothing that was forgotten is missed later. */
  lemma WindowMoves(m: map<u64, seq<EntryRecord>>, seen: seq<Seen>, x: Seen)
    requires IsWindow(m, seen)
    ensures IsWindow(Pruned(Pushed(m, x), MaxSlot(seen + [x])), seen + [x])
  {
  }

  // ---- The loop's state ----

  /** No sample without an entry received by then; otherwise one, the least
      distance (as u64) from the update back to such an entry. */
  ghost predicate MeasuresBaseline(samples: seq<Event>, id: SourceId, at: Instant, entries: seq<EntryRecord>) {
    if forall e | e in entries :: e.receivedAt > at then samples == []
    else exists e :: e in entries && e.receivedAt <= at
                     && samples == [GrpcLatencyEvent(id, AsU64(at - e.receivedAt))]
                     && forall other | other in entries && other.receivedAt <= at ::
                          at - e.receivedAt <= at - other.receivedAt
  }

  /** entries.filter(not later than the update).max_by_key(received_at) */
  method LatestBefore(entries: seq<EntryRecord>, at: Instant) returns (latest: Option<Instant>)
    ensures latest.None? ==> forall e | e in entries :: e.receivedAt > at
    ensures latest.Some? ==>
              && (exists e :: e in entries && e.receivedAt == latest.value) && latest.value <= at
              && forall e | e in entries && e.receivedAt <= at :: e.receivedAt <= latest.value
  {
    latest := None;
    for i := 0 to |entries|
      invariant latest.None? ==> forall e | e in entries[..i] :: e.receivedAt > at
      invariant latest.Some? ==>
                  && (exists e :: e in entries[..i] && e.receivedAt == latest.value) && latest.value <= at
                  && forall e | e in entries[..i] && e.receivedAt <= at :: e.receivedAt <= latest.value
    {
      var r := entries[i].receivedAt;
      assert entries[..i + 1] == entries[..i] + [entries[i]];
      assert entries[i] in entries[..i + 1];
      if r <= at && (latest.None? || r >= latest.value) {
        latest := Some(r);
      }
    }
    assert entries[..|entries|] == entries;
  }

  class Connection {
    const sourceId: SourceId
    const accountSourceId: Option<SourceId>
    var entryMap: map<u64, seq<EntryRecord>>
    var maxSlotSeen: u64
    ghost var seen: seq<Seen>

    ghost predicate Valid()
      reads this
    {
      IsWindow(entryMap, seen) && maxSlotSeen == MaxSlot(seen)
    }

    constructor (sourceId: SourceId, accountSourceId: Option<SourceId>)
      ensures Valid() && seen == []
      ensures this.sourceId == sourceId && this.accountSourceId == accountSourceId
    {
      this.sourceId, this.accountSourceId := sourceId, accountSourceId;
      entryMap, maxSlotSeen, seen := map[], 0, [];
    }

    method OnEntry(slot: u64, record: EntryRecord)
      requires Valid()
      modifies this
      ensures Valid() && seen == old(seen) + [Seen(slot, record)]
    {
      maxSlotSeen := if slot > maxSlotSeen then slot else maxSlotSeen;
      entryMap := entryMap[slot := (if slot in entryMap then entryMap[slot] else []) + [record]];
      if maxSlotSeen > 300 {
        entryMap := map s | s in entryMap && s >= maxSlotSeen - 300 :: entryMap[s];
      }
      ReceivedSnoc(seen, Seen(slot, record), slot);
      WindowMoves(old(entryMap), seen, Seen(slot, record));
      PrunedAs(Pushed(old(entryMap), Seen(slot, record)), maxSlotSeen);
      seen := seen + [Seen(slot, record)];
    }

    /** One message. What it emits, in order, is offered to the channels. */
    method OnUpdate(u: Update, receivedAt: Instant) returns (emitted: seq<Event>)
      requires Valid()
      modifies this
      ensures Valid()
      ensures seen == match u
                      case EntryUpdate(slot, index, count) =>
                        old(seen) + [Seen(slot, EntryRecord(index, count, receivedAt))]
                      case _ => old(seen)
      ensures match u
              case SlotUpdate(slot, first) => emitted == if first then [SlotEvent(sourceId, slot, receivedAt)] else []
              case AccountUpdate(slot, isStartup) =>
                if isStartup || accountSourceId.None? then emitted == []
                else
                  && |emitted| > 0 && emitted[0] == SlotEvent(accountSourceId.value, slot, receivedAt)
                  && MeasuresBaseline(emitted[1..], accountSourceId.value, receivedAt,
                                      if Recent(slot, MaxSlot(seen)) then ReceivedFor(seen, slot) else [])
              case _ => emitted == []
    {
      emitted := [];
      match u {
        case SlotUpdate(slot, first) =>
          if first {
            emitted := [SlotEvent(sourceId, slot, receivedAt)];
          }
        case EntryUpdate(slot, index, count) =>
          OnEntry(slot, EntryRecord(index, count, receivedAt));
        case AccountUpdate(slot, isStartup) =>
          if !isStartup && accountSourceId.Some? {
            var aid := accountSourceId.value;
            emitted := [SlotEvent(aid, slot, receivedAt)];
            var latest: Option<Instant> := None;
            if slot in entryMap {
              latest := LatestBefore(entryMap[slot], receivedAt);
            }
            if latest.Some? {
              var delta := AsU64(SaturatingSub(receivedAt, latest.value));
              emitted := emitted + [GrpcLatencyEvent(aid, delta)];
              assert emitted[1..] == [GrpcLatencyEvent(aid, delta)];
            }
          }
        case OtherUpdate =>
      }
    }
  }

  /** On a clock that never runs backwards the baseline is the entry of the slot delivered last. */
  lemma BaselineIsLastEntry(samples: seq<Event>, id: SourceId, at: Instant, entries: seq<EntryRecord>)
    requires MeasuresBaseline(samples, id, at, entries) && entries != []
    requires forall i, j | 0 <= i < j < |entries| :: entries[i].receivedAt <= entries[j].receivedAt
    requires Last(entries).receivedAt <= at
    ensures samples == [GrpcLatencyEvent(id, AsU64(at - Last(entries).receivedAt))]
  {
    assert Last(entries) in entries;
    var e :| e in entries && e.receivedAt <= at && samples == [GrpcLatencyEvent(id, AsU64(at - e.receivedAt))]
             && forall other | other in entries && other.receivedAt <= at :: at - e.receivedAt <= at - other.receivedAt;
  }
}
