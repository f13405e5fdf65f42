/** Kernel timestamps and instants side by side: which statistics depend on the
    anchor between the two clocks, and exactly when the others do not. */
module TwoClocks {
  import opened Bytes
  import opened Sequences
  import opened Shred
  import opened Registry
  import opened Stats
  import opened Replay
  import opened Wins
  import opened Order
  import opened Percentile
  import opened ClockAnchor

  // ---- The readings, clock by clock ----

  /** The events whose times are instants. */
  function OnUserland(raw: seq<Reading>): seq<Event> {
    if raw == [] then []
    else
      match Last(raw)
      case Kernel(_, _, _) => OnUserland(Front(raw))
      case Userland(e) => OnUserland(Front(raw)) + [e]
  }

  /** The shreds with kernel timestamps, their times on the wall clock. */
  function OnKernel(raw: seq<Reading>): seq<Event> {
    if raw == [] then []
    else
      match Last(raw)
      case Kernel(source, key, ts) => OnKernel(Front(raw)) + [ShredEvent(source, key, ts)]
      case Userland(_) => OnKernel(Front(raw))
  }

  function On(raw: seq<Reading>, kernel: bool): seq<Event> {
    if kernel then OnKernel(raw) else OnUserland(raw)
  }

  /** A time on one of the clocks, as an instant. */
  function AsInstant(kernel: bool, t: int, offset: int): Instant {
    if kernel then t + offset else t
  }

  function TimeOf(r: Reading): int
    requires r.Kernel? || !r.event.GrpcLatencyEvent?
  {
    if r.Kernel? then r.ts else r.event.at
  }

  function FirstWhere(raw: seq<Reading>, p: Reading -> bool): (r: Option<Reading>)
    ensures r.Some? ==> r.value in raw && p(r.value)
  {
    if raw == [] then None
    else
      assert raw == Front(raw) + [Last(raw)];
      var before := FirstWhere(Front(raw), p);
      if before.Some? then before else if p(Last(raw)) then Some(Last(raw)) else None
  }

  function ReadingOf(k: ShredKey): Reading -> bool {
    (r: Reading) => if r.Kernel? then r.key == k else r.event.ShredEvent? && r.event.key == k
  }

  function ReadingIn(slot: u64): Reading -> bool {
    (r: Reading) => if r.Kernel? then r.key.slot == slot else OfSlot(r.event, slot)
  }

  function Sooner(a: Option<int>, b: Option<int>): Option<int> {
    if a.None? then b else if b.None? || a.value <= b.value then a else b
  }

  function Plus(a: Option<int>, n: int): Option<int> {
    if a.None? then None else Some(a.value + n)
  }

  lemma {:induction false} ShredMembers(raw: seq<Reading>, offset: int, id: SourceId, k: ShredKey, t: Instant)
    ensures ShredEvent(id, k, t) in AtOffset(raw, offset)
       <==> ShredEvent(id, k, t) in OnUserland(raw) || ShredEvent(id, k, t - offset) in OnKernel(raw)
  {
    if raw == [] {
    } else {
      ShredMembers(Front(raw), offset, id, k, t);
    }
  }

  lemma EarliestOfBoth(ts: seq<int>, us: seq<int>, ks: seq<int>, offset: int)
    requires forall t :: t in ts <==> t in us || t - offset in ks
    ensures Earliest(ts) == Sooner(Earliest(us), Plus(Earliest(ks), offset))
  {
    forall t | t in us ensures t in ts { }
    forall t | t in ks ensures t + offset in ts { assert t + offset - offset in ks; }
    assert ts != [] ==> us != [] || ks != [] by {
      if ts != [] {
        assert ts[0] in ts;
        assert ts[0] in us || ts[0] - offset in ks;
      }
    }
    if us != [] || ks != [] {
      var least := Sooner(Earliest(us), Plus(Earliest(ks), offset)).value;
      assert least in ts;
      MinUnique(ts, least);
    }
  }

  // ---- One shred ----

  /** A source's earliest arrival of a shred on one of the clocks. */
  function EarliestOn(raw: seq<Reading>, kernel: bool, k: ShredKey, id: SourceId): Option<int> {
    Earliest(TimesFrom(Arrivals(On(raw, kernel), k), id))
  }

  lemma ArrivalTimesOnBoth(raw: seq<Reading>, offset: int, k: ShredKey, id: SourceId, t: Instant)
    ensures t in TimesFrom(Arrivals(AtOffset(raw, offset), k), id)
       <==> || t in TimesFrom(Arrivals(OnUserland(raw), k), id)
            || t - offset in TimesFrom(Arrivals(OnKernel(raw), k), id)
  {
    TimeMembers(AtOffset(raw, offset), k, id, t);
    TimeMembers(OnUserland(raw), k, id, t);
    TimeMembers(OnKernel(raw), k, id, t - offset);
    ShredMembers(raw, offset, id, k, t);
  }

  lemma EarliestArrival(raw: seq<Reading>, offset: int, k: ShredKey, id: SourceId)
    ensures Earliest(TimesFrom(Arrivals(AtOffset(raw, offset), k), id))
            == Sooner(EarliestOn(raw, false, k, id), Plus(EarliestOn(raw, true, k, id), offset))
  {
    var ts := TimesFrom(Arrivals(AtOffset(raw, offset), k), id);
    var us, ks := TimesFrom(Arrivals(OnUserland(raw), k), id), TimesFrom(Arrivals(OnKernel(raw), k), id);
    forall t ensures t in ts <==> t in us || t - offset in ks {
      ArrivalTimesOnBoth(raw, offset, k, id, t);
    }
    EarliestOfBoth(ts, us, ks, offset);
  }

  lemma {:induction false} FirstArrival(raw: seq<Reading>, offset: int, k: ShredKey)
    ensures var arrivals, first := Arrivals(AtOffset(raw, offset), k), FirstWhere(raw, ReadingOf(k));
            && (arrivals == [] <==> first.None?)
            && (first.Some? ==> arrivals[0].at == AsInstant(first.value.Kernel?, TimeOf(first.value), offset))
  {
    if raw == [] {
    } else {
      FirstArrival(Front(raw), offset, k);
      ArrivalsSnoc(AtOffset(Front(raw), offset), ReadAt(Last(raw), offset), k);
    }
  }

  /** How far the sooner of two times, if there is one, is behind the origin. */
  function Behind(a: Option<int>, b: Option<int>): Option<nat> {
    var sooner := Sooner(a, b);
    if sooner.None? then None else Some(SaturatingSub(sooner.value, 0))
  }

  lemma BehindFrom(a: Option<int>, b: Option<int>, origin: int)
    ensures Behind(Plus(a, -origin), Plus(b, -origin))
            == if Sooner(a, b).None? then None else Some(SaturatingSub(Sooner(a, b).value, origin))
    ensures Behind(a, b) == Behind(b, a)
  {
  }

  function Truncated(n: Option<nat>): Option<u64> {
    if n.None? then None else Some(AsU64(n.value))
  }

  /** The earliest arrivals of a source, on the clock of the shred's first
      recorded arrival and on the other one, as distances from that arrival. */
  function OwnClock(raw: seq<Reading>, first: Reading, k: ShredKey, id: SourceId): Option<int>
    requires ReadingOf(k)(first)
  {
    Plus(EarliestOn(raw, first.Kernel?, k, id), -TimeOf(first))
  }

  function OtherClock(raw: seq<Reading>, first: Reading, k: ShredKey, id: SourceId, offset: int): Option<int>
    requires ReadingOf(k)(first)
  {
    Plus(EarliestOn(raw, !first.Kernel?, k, id), (if first.Kernel? then -offset else offset) - TimeOf(first))
  }

  lemma OnTwoClocks(raw: seq<Reading>, first: Reading, k: ShredKey, id: SourceId, offset: int)
    requires ReadingOf(k)(first)
    ensures var s := AsInstant(first.Kernel?, TimeOf(first), offset);
            var u, v := EarliestOn(raw, false, k, id), Plus(EarliestOn(raw, true, k, id), offset);
            Behind(OwnClock(raw, first, k, id), OtherClock(raw, first, k, id, offset))
            == if Sooner(u, v).None? then None else Some(SaturatingSub(Sooner(u, v).value, s))
  {
    var s := AsInstant(first.Kernel?, TimeOf(first), offset);
    var u, v := EarliestOn(raw, false, k, id), Plus(EarliestOn(raw, true, k, id), offset);
    BehindFrom(u, v, s);
    BehindFrom(Plus(u, -s), Plus(v, -s), 0);
    assert first.Kernel? ==> OwnClock(raw, first, k, id) == Plus(v, -s);
    assert first.Kernel? ==> OtherClock(raw, first, k, id, offset) == Plus(u, -s);
  }

  /** A source's latency under any offset between the clocks. */
  function ReadLatency(raw: seq<Reading>, offset: int, k: ShredKey, id: SourceId): Option<u64> {
    var first := FirstWhere(raw, ReadingOf(k));
    if first.None? then None
    else Truncated(Behind(OwnClock(raw, first.value, k, id), OtherClock(raw, first.value, k, id, offset)))
  }

  lemma LatencyAt(raw: seq<Reading>, offset: int, k: ShredKey, id: SourceId)
    ensures LatencyIn(AtOffset(raw, offset), id)(k) == ReadLatency(raw, offset, k, id)
  {
    EarliestArrival(raw, offset, k, id);
    FirstArrival(raw, offset, k);
    var first := FirstWhere(raw, ReadingOf(k));
    if first.Some? {
      OnTwoClocks(raw, first.value, k, id, offset);
    }
  }

  /** Two distances of which only the second depends on the offset, and always
      does: they give one latency exactly when the first is no later than the
      origin or never behind the second, or the second never is later than the origin. */
  lemma BehindSame(own: Option<int>, other: Option<int>, other': Option<int>)
    requires if other.None? then other'.None? else other'.Some? && other.value != other'.value
    ensures Behind(own, other) == Behind(own, other')
       <==> || other.None?
            || (own.Some? && own.value <= 0)
            || (own.Some? && own.value <= other.value && own.value <= other'.value)
            || (other.value <= 0 && other'.value <= 0)
  {
  }

  /** The clock that the shred's first recorded arrival is on decides alone:
      the source has no arrival on the other one, or one on this clock that is no
      later than the first recorded. */
  ghost predicate OneClockDecides(raw: seq<Reading>, k: ShredKey, id: SourceId) {
    var first := FirstWhere(raw, ReadingOf(k));
    first.Some? ==>
      var own := EarliestOn(raw, first.value.Kernel?, k, id);
      || EarliestOn(raw, !first.value.Kernel?, k, id).None?
      || (own.Some? && own.value <= TimeOf(first.value))
  }

  lemma {:induction false} NothingOn(raw: seq<Reading>, kernel: bool, k: ShredKey)
    requires forall r | r in raw && ReadingOf(k)(r) :: r.Kernel? == !kernel
    ensures Arrivals(On(raw, kernel), k) == []
  {
    if raw == [] {
    } else {
      assert raw == Front(raw) + [Last(raw)];
      NothingOn(Front(raw), kernel, k);
    }
  }

  /** One clock decides every source's latency for a shred whose arrivals were all read off it. */
  lemma OneClockShred(raw: seq<Reading>, kernel: bool, k: ShredKey, id: SourceId)
    requires forall r | r in raw && ReadingOf(k)(r) :: r.Kernel? == kernel
    ensures OneClockDecides(raw, k, id)
  {
    NothingOn(raw, !kernel, k);
  }

  lemma ReadLatencySame(raw: seq<Reading>, o: int, o': int, k: ShredKey, id: SourceId)
    requires OneClockDecides(raw, k, id)
    ensures ReadLatency(raw, o, k, id) == ReadLatency(raw, o', k, id)
  {
  }

  lemma LatencySame(raw: seq<Reading>, o: int, o': int, k: ShredKey, id: SourceId)
    requires OneClockDecides(raw, k, id)
    ensures LatencyIn(AtOffset(raw, o), id)(k) == LatencyIn(AtOffset(raw, o'), id)(k)
  {
    LatencyAt(raw, o, k, id);
    LatencyAt(raw, o', k, id);
    ReadLatencySame(raw, o, o', k, id);
  }

  /** Under one offset the other clock's arrival is level with the first
      recorded, under the next it is 1 ns later: latencies 0 and 1. */
  lemma ReadingsThatDiffer(raw: seq<Reading>, k: ShredKey, id: SourceId) returns (o: int, o': int)
    requires !OneClockDecides(raw, k, id)
    ensures ReadLatency(raw, o, k, id) == Some(0) && ReadLatency(raw, o', k, id) == Some(1)
  {
    var first := FirstWhere(raw, ReadingOf(k)).value;
    var other := EarliestOn(raw, !first.Kernel?, k, id).value;
    if first.Kernel? {
      o, o' := other - TimeOf(first), other - TimeOf(first) - 1;
    } else {
      o, o' := TimeOf(first) - other, TimeOf(first) - other + 1;
    }
  }

  lemma OffsetsThatDiffer(raw: seq<Reading>, k: ShredKey, id: SourceId) returns (o: int, o': int)
    requires !OneClockDecides(raw, k, id)
    ensures LatencyIn(AtOffset(raw, o), id)(k) == Some(0) && LatencyIn(AtOffset(raw, o'), id)(k) == Some(1)
  {
    hide ReadLatency, LatencyIn, OneClockDecides;
    o, o' := ReadingsThatDiffer(raw, k, id);
    LatencyAt(raw, o, k, id);
    LatencyAt(raw, o', k, id);
  }

  /** A source's latency for a shred is the same under every offset between the
      clocks exactly when one clock decides it. */
  lemma LatencyOffsetFree(raw: seq<Reading>, k: ShredKey, id: SourceId)
    ensures (forall o, o' :: LatencyIn(AtOffset(raw, o), id)(k) == LatencyIn(AtOffset(raw, o'), id)(k))
       <==> OneClockDecides(raw, k, id)
  {
    if OneClockDecides(raw, k, id) {
      forall o, o' ensures LatencyIn(AtOffset(raw, o), id)(k) == LatencyIn(AtOffset(raw, o'), id)(k) {
        LatencySame(raw, o, o', k, id);
      }
    } else {
      var o, o' := OffsetsThatDiffer(raw, k, id);
    }
  }

  /** The same under two given offsets. */
  ghost predicate SameUnder(raw: seq<Reading>, k: ShredKey, id: SourceId, o: int, o': int) {
    var first := FirstWhere(raw, ReadingOf(k));
    first.Some? ==>
      var own := OwnClock(raw, first.value, k, id);
      var other, other' := OtherClock(raw, first.value, k, id, o), OtherClock(raw, first.value, k, id, o');
      || other.None?
      || (own.Some? && own.value <= 0)
      || (own.Some? && own.value <= other.value && own.value <= other'.value)
      || (other.value <= 0 && other'.value <= 0)
  }

  lemma LatencyExact(arrivals: seq<Arrival>, id: SourceId)
    requires WithinU64(arrivals) && TimesFrom(arrivals, id) != []
    ensures LatencyOf(arrivals, id) == Some(SaturatingSub(MinOf(TimesFrom(arrivals, id)), arrivals[0].at))
  {
    FirstFromIsLeast(RecordOf(arrivals), id);
  }

  /** Nothing is truncated below 2^64 ns. */
  lemma BehindUnder(raw: seq<Reading>, o: int, k: ShredKey, id: SourceId)
    requires WithinU64(Arrivals(AtOffset(raw, o), k))
    ensures var first, latency := FirstWhere(raw, ReadingOf(k)), LatencyIn(AtOffset(raw, o), id)(k);
            if first.None? then latency.None?
            else
              var behind := Behind(OwnClock(raw, first.value, k, id), OtherClock(raw, first.value, k, id, o));
              if behind.None? then latency.None? else latency == Some(behind.value)
  {
    var first := FirstWhere(raw, ReadingOf(k));
    EarliestArrival(raw, o, k, id);
    FirstArrival(raw, o, k);
    if first.Some? {
      OnTwoClocks(raw, first.value, k, id, o);
    }
    if TimesFrom(Arrivals(AtOffset(raw, o), k), id) != [] {
      LatencyExact(Arrivals(AtOffset(raw, o), k), id);
    }
  }

  /** Below 2^64 ns, a source's latency for a shred is the same under two
      different offsets exactly when one of its earliest arrivals on the two
      clocks is the sooner, or no later than the first recorded, under both. */
  lemma LatencySameUnder(raw: seq<Reading>, k: ShredKey, id: SourceId, o: int, o': int)
    requires o != o' && WithinU64(Arrivals(AtOffset(raw, o), k)) && WithinU64(Arrivals(AtOffset(raw, o'), k))
    ensures LatencyIn(AtOffset(raw, o), id)(k) == LatencyIn(AtOffset(raw, o'), id)(k) <==> SameUnder(raw, k, id, o, o')
  {
    var first := FirstWhere(raw, ReadingOf(k));
    BehindUnder(raw, o, k, id);
    BehindUnder(raw, o', k, id);
    if first.Some? {
      BehindSame(OwnClock(raw, first.value, k, id), OtherClock(raw, first.value, k, id, o),
                 OtherClock(raw, first.value, k, id, o'));
    }
  }

  // ---- One slot ----

  /** The earliest kernel-stamped shred of a slot, on the wall clock. */
  function KernelShred(raw: seq<Reading>, slot: u64): Option<int> {
    Earliest(ShredTimes(OnKernel(raw), slot))
  }

  /** The earliest instant that counts towards first_shred_at and no anchor
      moves: that of a shred, or of the slot's first recorded event. */
  function FixedSeed(raw: seq<Reading>, slot: u64): Option<int> {
    var first, shreds := FirstWhere(raw, ReadingIn(slot)), Earliest(ShredTimes(OnUserland(raw), slot));
    if first.Some? && first.value.Userland? then Sooner(Some(TimeOf(first.value)), shreds) else shreds
  }

  lemma {:induction false} FirstInSlot(raw: seq<Reading>, offset: int, slot: u64)
    ensures var times, first := SlotTimes(AtOffset(raw, offset), slot), FirstWhere(raw, ReadingIn(slot));
            && (times == [] <==> first.None?)
            && (first.Some? ==> times[0] == AsInstant(first.value.Kernel?, TimeOf(first.value), offset))
  {
    if raw == [] {
    } else {
      var before, r := Front(raw), Last(raw);
      FirstInSlot(before, offset, slot);
      SlotTimesSnoc(AtOffset(before, offset), ReadAt(r, offset), slot);
      assert OfSlot(ReadAt(r, offset), slot) <==> ReadingIn(slot)(r);
      assert FirstWhere(raw, ReadingIn(slot))
             == if FirstWhere(before, ReadingIn(slot)).Some? then FirstWhere(before, ReadingIn(slot))
                else if ReadingIn(slot)(r) then Some(r) else None;
    }
  }

  predicate ShredOf(slot: u64, e: Event) {
    e.ShredEvent? && e.key.slot == slot
  }

  lemma ShredTimeMember(h: seq<Event>, e: Event, slot: u64, t: Instant)
    ensures t in ShredTimes(h + [e], slot) <==> t in ShredTimes(h, slot) || (ShredOf(slot, e) && e.at == t)
  {
    ShredTimesSnoc(h, e, slot);
  }

  lemma {:induction false} ShredTimesOnBoth(raw: seq<Reading>, offset: int, slot: u64, t: Instant)
    ensures t in ShredTimes(AtOffset(raw, offset), slot)
       <==> t in ShredTimes(OnUserland(raw), slot) || t - offset in ShredTimes(OnKernel(raw), slot)
  {
    if raw == [] {
    } else {
      var before, r := Front(raw), Last(raw);
      ShredTimesOnBoth(before, offset, slot, t);
      ShredTimeMember(AtOffset(before, offset), ReadAt(r, offset), slot, t);
      if r.Kernel? {
        ShredTimeMember(OnKernel(before), ShredEvent(r.source, r.key, r.ts), slot, t - offset);
        assert OnUserland(raw) == OnUserland(before);
      } else {
        ShredTimeMember(OnUserland(before), r.event, slot, t);
        assert OnKernel(raw) == OnKernel(before);
      }
    }
  }

  lemma EarliestShred(raw: seq<Reading>, offset: int, slot: u64)
    ensures Earliest(ShredTimes(AtOffset(raw, offset), slot))
            == Sooner(Earliest(ShredTimes(OnUserland(raw), slot)), Plus(KernelShred(raw, slot), offset))
  {
    var ts := ShredTimes(AtOffset(raw, offset), slot);
    var us, ks := ShredTimes(OnUserland(raw), slot), ShredTimes(OnKernel(raw), slot);
    forall t ensures t in ts <==> t in us || t - offset in ks {
      ShredTimesOnBoth(raw, offset, slot, t);
    }
    EarliestOfBoth(ts, us, ks, offset);
  }

  lemma {:induction false} KernelFirstIsShred(raw: seq<Reading>, slot: u64)
    ensures var first := FirstWhere(raw, ReadingIn(slot));
            first.Some? && first.value.Kernel? ==> TimeOf(first.value) in ShredTimes(OnKernel(raw), slot)
  {
    if raw == [] {
    } else {
      KernelFirstIsShred(Front(raw), slot);
    }
  }

  lemma SeededIs(h: seq<Event>, slot: u64, t: Instant)
    ensures Some(Seeded(h, slot, t)) == Sooner(Some(t), Earliest(ShredTimes(h, slot)))
  {
  }

  lemma SeedOnTwoClocks(kernel: bool, t: int, u: Option<int>, k: Option<int>, offset: int)
    requires kernel ==> k.Some? && k.value <= t
    ensures Sooner(Some(AsInstant(kernel, t, offset)), Sooner(u, Plus(k, offset)))
            == Sooner(if kernel then u else Sooner(Some(t), u), Plus(k, offset))
  {
  }

  /** first_shred_at under any offset, from the slot's first event and its shreds. */
  lemma FirstShredAtUnder(raw: seq<Reading>, offset: int, slot: u64)
    ensures Earliest(SlotTimes(AtOffset(raw, offset), slot))
            == Sooner(FixedSeed(raw, slot), Plus(KernelShred(raw, slot), offset))
  {
    var h := AtOffset(raw, offset);
    FirstInSlot(raw, offset, slot);
    EarliestShred(raw, offset, slot);
    KernelFirstIsShred(raw, slot);
    var first := FirstWhere(raw, ReadingIn(slot));
    if first.Some? {
      SeededByFirst(h, slot);
      SeededIs(h, slot, SlotTimes(h, slot)[0]);
      SeedOnTwoClocks(first.value.Kernel?, TimeOf(first.value), Earliest(ShredTimes(OnUserland(raw), slot)),
                      KernelShred(raw, slot), offset);
    } else {
      SlotTimesShape(h, slot);
    }
  }

  /** No anchor moves a slot event. */
  lemma {:induction false} EntriesStay(raw: seq<Reading>, offset: int, slot: u64, id: SourceId)
    ensures EntryTimes(AtOffset(raw, offset), slot, id) == EntryTimes(OnUserland(raw), slot, id)
  {
    if raw == [] {
    } else {
      EntriesStay(Front(raw), offset, slot, id);
      EntryTimesSnoc(AtOffset(Front(raw), offset), ReadAt(Last(raw), offset), slot, id);
    }
  }

  /** A source's earliest entry in a slot; no anchor moves it. */
  function EntryOf(raw: seq<Reading>, slot: u64, id: SourceId): Option<int> {
    Earliest(EntryTimes(OnUserland(raw), slot, id))
  }

  function SlotDistance(entry: Option<int>, w: Option<int>, k: Option<int>): Option<u64> {
    var seed := Sooner(w, k);
    if entry.None? || seed.None? then None else Some(AsU64(SaturatingSub(entry.value, seed.value)))
  }

  /** A source's latency in a slot under any offset. */
  lemma SlotLatencyAt(raw: seq<Reading>, offset: int, slot: u64, id: SourceId)
    ensures SlotLatencyIn(AtOffset(raw, offset), id)(slot)
            == SlotDistance(EntryOf(raw, slot, id), FixedSeed(raw, slot), Plus(KernelShred(raw, slot), offset))
    ensures EntryOf(raw, slot, id).Some? ==>
              Sooner(FixedSeed(raw, slot), Plus(KernelShred(raw, slot), offset)).Some?
  {
    EntriesStay(raw, offset, slot, id);
    FirstShredAtUnder(raw, offset, slot);
    if EntryTimes(OnUserland(raw), slot, id) != [] {
      EntrySlotSeen(AtOffset(raw, offset), slot, id);
    }
  }

  /** No kernel-stamped shred, no entry, or one of the two instants that stay is no later than it under both offsets. */
  predicate StaysFirst(entry: Option<int>, w: Option<int>, k: Option<int>, o: int, o': int) {
    || k.None? || entry.None?
    || (w.Some? && w.value <= k.value + o && w.value <= k.value + o')
    || (entry.value <= k.value + o && entry.value <= k.value + o')
  }

  lemma DistancesSame(entry: Option<int>, w: Option<int>, k: Option<int>, o: int, o': int)
    requires StaysFirst(entry, w, k, o, o')
    ensures SlotDistance(entry, w, Plus(k, o)) == SlotDistance(entry, w, Plus(k, o'))
  {
  }

  lemma DistancesApart(entry: Option<int>, w: Option<int>, k: Option<int>, o: int, o': int)
    requires o < o' && !StaysFirst(entry, w, k, o, o') && entry.value - (k.value + o) < TWO_TO_THE_64
    ensures SlotDistance(entry, w, Plus(k, o)) != SlotDistance(entry, w, Plus(k, o'))
  {
    DistancesDiffer(entry.value, k.value + o, Sooner(w, Some(k.value + o')).value);
  }

  /** Under both offsets, an instant that no anchor moves and that counts towards
      first_shred_at, or the source's own entry, is no later than every
      kernel-stamped shred of the slot. */
  predicate SlotSameUnder(raw: seq<Reading>, slot: u64, id: SourceId, o: int, o': int) {
    StaysFirst(EntryOf(raw, slot, id), FixedSeed(raw, slot), KernelShred(raw, slot), o, o')
  }

  lemma SlotSame(raw: seq<Reading>, slot: u64, id: SourceId, o: int, o': int)
    requires SlotSameUnder(raw, slot, id, o, o')
    ensures SlotLatencyIn(AtOffset(raw, o), id)(slot) == SlotLatencyIn(AtOffset(raw, o'), id)(slot)
  {
    SlotLatencyAt(raw, o, slot, id);
    SlotLatencyAt(raw, o', slot, id);
    DistancesSame(EntryOf(raw, slot, id), FixedSeed(raw, slot), KernelShred(raw, slot), o, o');
  }

  /** Below 2^64 ns, a source's latency in a slot is the same under two
      different offsets exactly when the slot has no kernel-stamped shred, or the
      earliest of them is, under both, no sooner than an instant that no anchor
      moves and that counts towards first_shred_at, or no sooner than the entry. */
  lemma SlotLatencySameUnder(raw: seq<Reading>, slot: u64, id: SourceId, o: int, o': int)
    requires o != o'
    requires var entry, k := EntryOf(raw, slot, id), KernelShred(raw, slot);
             entry.Some? && k.Some? ==> entry.value - (k.value + o) < TWO_TO_THE_64
                                        && entry.value - (k.value + o') < TWO_TO_THE_64
    ensures SlotLatencyIn(AtOffset(raw, o), id)(slot) == SlotLatencyIn(AtOffset(raw, o'), id)(slot)
       <==> SlotSameUnder(raw, slot, id, o, o')
  {
    var entry, w, k := EntryOf(raw, slot, id), FixedSeed(raw, slot), KernelShred(raw, slot);
    SlotLatencyAt(raw, o, slot, id);
    SlotLatencyAt(raw, o', slot, id);
    if StaysFirst(entry, w, k, o, o') {
      DistancesSame(entry, w, k, o, o');
    } else if o < o' {
      DistancesApart(entry, w, k, o, o');
    } else {
      DistancesApart(entry, w, k, o', o);
    }
  }

  lemma SuccessorsDiffer(n: nat)
    ensures AsU64(n) != AsU64(n + 1)
  {
  }

  lemma NextDistance(entry: int, w: Option<int>, least: int)
    requires least <= entry && (w.Some? ==> least <= w.value)
    ensures SlotDistance(Some(entry), w, Some(least)) != SlotDistance(Some(entry), w, Some(least - 1))
  {
    SuccessorsDiffer(entry - least);
  }

  lemma SlotOffsetsThatDiffer(raw: seq<Reading>, slot: u64, id: SourceId) returns (o: int, o': int)
    requires KernelShred(raw, slot).Some? && EntryTimes(OnUserland(raw), slot, id) != []
    ensures SlotLatencyIn(AtOffset(raw, o), id)(slot) != SlotLatencyIn(AtOffset(raw, o'), id)(slot)
  {
    var entry, k := MinOf(EntryTimes(OnUserland(raw), slot, id)), KernelShred(raw, slot).value;
    var least := Sooner(FixedSeed(raw, slot), Some(entry)).value;
    o, o' := least - k, least - k - 1;
    SlotLatencyAt(raw, o, slot, id);
    SlotLatencyAt(raw, o', slot, id);
    NextDistance(entry, FixedSeed(raw, slot), least);
  }

  /** A source's latency in a slot that it sent an event for is the same under
      every offset exactly when no shred of the slot has a kernel timestamp. */
  lemma SlotLatencyOffsetFree(raw: seq<Reading>, slot: u64, id: SourceId)
    requires EntryTimes(OnUserland(raw), slot, id) != []
    ensures (forall o, o' :: SlotLatencyIn(AtOffset(raw, o), id)(slot) == SlotLatencyIn(AtOffset(raw, o'), id)(slot))
       <==> KernelShred(raw, slot).None?
  {
    if KernelShred(raw, slot).None? {
      forall o, o' ensures SlotLatencyIn(AtOffset(raw, o), id)(slot) == SlotLatencyIn(AtOffset(raw, o'), id)(slot) {
        SlotSame(raw, slot, id, o, o');
      }
    } else {
      var o, o' := SlotOffsetsThatDiffer(raw, slot, id);
    }
  }

  // ---- Anchors ----

  /** Counts do not depend on times at all. */
  ghost predicate SameButTimes(h: seq<Event>, h': seq<Event>) {
    && |h| == |h'|
    && forall i | 0 <= i < |h| ::
         match h[i]
         case ShredEvent(source, key, _) => h'[i].ShredEvent? && h'[i].source == source && h'[i].key == key
         case SlotEvent(source, slot, _) => h'[i].SlotEvent? && h'[i].source == source && h'[i].slot == slot
         case GrpcLatencyEvent(_, _) => h'[i] == h[i]
  }

  lemma {:induction false} AnchorsMoveTimes(a: ClockAnchor, b: ClockAnchor, raw: seq<Reading>)
    ensures SameButTimes(Stamp(a, raw), Stamp(b, raw))
  {
    if raw == [] {
    } else {
      AnchorsMoveTimes(a, b, Front(raw));
    }
  }

  lemma TimelessKeys(h: seq<Event>, h': seq<Event>, id: SourceId)
    requires SameButTimes(h, h')
    ensures Keys(h) <= Keys(h') && KeysFrom(h, id) <= KeysFrom(h', id)
    ensures SlotsIn(h) <= SlotsIn(h') && SlotsFrom(h, id) <= SlotsFrom(h', id)
  {
    forall e | e in h
      ensures e.ShredEvent? ==> e.key in Keys(h') && (e.source == id ==> e.key in KeysFrom(h', id))
      ensures !e.GrpcLatencyEvent? ==> SlotOf(e) in SlotsIn(h')
      ensures e.SlotEvent? && e.source == id ==> e.slot in SlotsFrom(h', id)
    {
      var i :| 0 <= i < |h| && h[i] == e;
      assert h'[i] in h';
    }
  }

  lemma SameButTimesBack(h: seq<Event>, h': seq<Event>)
    requires SameButTimes(h, h')
    ensures SameButTimes(h', h)
  {
    forall i | 0 <= i < |h'| ensures h[i].ShredEvent? <==> h'[i].ShredEvent? { }
  }

  lemma {:induction false} TimelessCount(h: seq<Event>, h': seq<Event>, id: SourceId)
    requires SameButTimes(h, h')
    ensures CountIf(h, ShredFrom(id)) == CountIf(h', ShredFrom(id))
  {
    if h == [] {
    } else {
      TimelessCount(Front(h), Front(h'), id);
    }
  }

  lemma AnchorsKeepKeys(a: ClockAnchor, b: ClockAnchor, raw: seq<Reading>, id: SourceId)
    ensures var h, h' := Stamp(a, raw), Stamp(b, raw);
            && Keys(h) == Keys(h') && KeysFrom(h, id) == KeysFrom(h', id)
            && SlotsIn(h) == SlotsIn(h') && SlotsFrom(h, id) == SlotsFrom(h', id)
            && CountIf(h, ShredFrom(id)) == CountIf(h', ShredFrom(id))
  {
    AnchorsMoveTimes(a, b, raw);
    SameButTimesBack(Stamp(a, raw), Stamp(b, raw));
    TimelessKeys(Stamp(a, raw), Stamp(b, raw), id);
    TimelessKeys(Stamp(b, raw), Stamp(a, raw), id);
    TimelessCount(Stamp(a, raw), Stamp(b, raw), id);
  }

  /** Whatever the two anchors and however they convert: the same counts. */
  lemma CountsIgnoreAnchor(a: ClockAnchor, b: ClockAnchor, raw: seq<Reading>, id: SourceId,
                           st: SourceStats, st': SourceStats, es: EntrySourceStats, es': EntrySourceStats)
    ensures Reports(st, Stamp(a, raw), id) && Reports(st', Stamp(b, raw), id) ==>
              && st.received == st'.received && st.missed == st'.missed && st.dupes == st'.dupes
              && st.dataShreds == st'.dataShreds && st.codeShreds == st'.codeShreds
    ensures SlotReports(es, Stamp(a, raw), id) && SlotReports(es', Stamp(b, raw), id) ==>
              es.slotsSeen == es'.slotsSeen
  {
    AnchorsKeepKeys(a, b, raw, id);
  }

  lemma AnchorsAgree(a: ClockAnchor, b: ClockAnchor, raw: seq<Reading>, id: SourceId, v: u64)
    requires ConvertsAll(a, raw) && ConvertsAll(b, raw) && forall k :: OneClockDecides(raw, k, id)
    ensures KeysAt(Stamp(a, raw), id, v) == KeysAt(Stamp(b, raw), id, v)
  {
    AnchorsKeepKeys(a, b, raw, id);
    StampIsOffset(a, raw);
    StampIsOffset(b, raw);
    forall k ensures LatencyIn(Stamp(a, raw), id)(k) == LatencyIn(Stamp(b, raw), id)(k) {
      LatencySame(raw, a.Offset(), b.Offset(), k, id);
    }
  }

  /** For anchors that convert exactly: which shreds a source has at each
      latency, so which ones it wins, is the same under every anchor exactly when
      for every shred one clock decides. */
  lemma WinsAnchorFree(raw: seq<Reading>, id: SourceId)
    requires KernelSpan(raw)
    ensures (forall a, b, v: u64 | ConvertsAll(a, raw) && ConvertsAll(b, raw) ::
               KeysAt(Stamp(a, raw), id, v) == KeysAt(Stamp(b, raw), id, v))
       <==> forall k :: OneClockDecides(raw, k, id)
  {
    if forall k :: OneClockDecides(raw, k, id) {
      forall a, b, v: u64 | ConvertsAll(a, raw) && ConvertsAll(b, raw)
        ensures KeysAt(Stamp(a, raw), id, v) == KeysAt(Stamp(b, raw), id, v)
      {
        AnchorsAgree(a, b, raw, id, v);
      }
    } else {
      var k :| !OneClockDecides(raw, k, id);
      var o, o' := OffsetsThatDiffer(raw, k, id);
      var a := AnchorWith(raw, o);
      var b := AnchorWith(raw, o');
      StampIsOffset(a, raw);
      StampIsOffset(b, raw);
      KeyReceived(Stamp(a, raw), k, id);
      assert k in KeysAt(Stamp(a, raw), id, 0) && k !in KeysAt(Stamp(b, raw), id, 0);
    }
  }

  /** Then the two anchors give one number of wins, one bag of latencies and one summary of them. */
  lemma AnchorIrrelevant(fl: real -> real, a: ClockAnchor, b: ClockAnchor, raw: seq<Reading>, id: SourceId,
                         st: SourceStats, p: Percentiles, st': SourceStats, p': Percentiles)
    requires ConvertsAll(a, raw) && ConvertsAll(b, raw) && forall k :: OneClockDecides(raw, k, id)
    ensures Reports(st, Stamp(a, raw), id) && Reports(st', Stamp(b, raw), id) ==>
              && st.wins == st'.wins && multiset(st.latency) == multiset(st'.latency)
              && (Summarizes(fl, p, st.latency) && Summarizes(fl, p', st'.latency) ==> p == p')
  {
    forall v: u64 ensures |KeysAt(Stamp(a, raw), id, v)| == |KeysAt(Stamp(b, raw), id, v)| {
      AnchorsAgree(a, b, raw, id, v);
    }
    if Reports(st, Stamp(a, raw), id) && Reports(st', Stamp(b, raw), id) {
      ReportsAgree(st, Stamp(a, raw), st', Stamp(b, raw), id);
      SummaryUnique(fl, st.latency, st'.latency, p, p');
    }
  }

  lemma StampSnoc(a: ClockAnchor, raw: seq<Reading>, r: Reading)
    ensures Stamp(a, raw + [r]) == Stamp(a, raw) + [StampReading(a, r)]
  {
    assert Front(raw + [r]) == raw;
  }

  lemma StampTwo(a: ClockAnchor, r: Reading, r': Reading)
    ensures Stamp(a, [r, r']) == [StampReading(a, r), StampReading(a, r')]
  {
    StampSnoc(a, [], r);
    StampSnoc(a, [] + [r], r');
    assert [r, r'] == [] + [r] + [r'];
  }

  lemma TwoArrivals(k: ShredKey, t: Instant, t': Instant)
    ensures LatencyIn([ShredEvent(1, k, t), ShredEvent(2, k, t')], 2)(k) == Some(AsU64(SaturatingSub(t', t)))
  {
    ArrivalsOfOne(ShredEvent(1, k, t), k);
    ArrivalsSnoc([ShredEvent(1, k, t)], ShredEvent(2, k, t'), k);
    assert [ShredEvent(1, k, t), ShredEvent(2, k, t')] == [ShredEvent(1, k, t)] + [ShredEvent(2, k, t')];
    var first, second := [Arrival(1, t)], [Arrival(1, t)] + [Arrival(2, t')];
    Snoc(first, Arrival(2, t'));
    assert Front(first) == [] && TimesFrom(first, 2) == [];
    assert TimesFrom(second, 2) == [t'];
  }

  /** With one shred stamped by the kernel and one not, anchors 10 ns apart
      decide whether the second source wins the shred or loses it by 5 ns. */
  lemma MixedClocksMoveWins(k: ShredKey)
    ensures var raw := [Kernel(1, k, 100), Userland(ShredEvent(2, k, 105))];
            && LatencyIn(Stamp(ClockAnchor(0, 0, -1000), raw), 2)(k) == Some(5)
            && LatencyIn(Stamp(ClockAnchor(10, 0, -1000), raw), 2)(k) == Some(0)
  {
    var raw := [Kernel(1, k, 100), Userland(ShredEvent(2, k, 105))];
    StampTwo(ClockAnchor(0, 0, -1000), raw[0], raw[1]);
    StampTwo(ClockAnchor(10, 0, -1000), raw[0], raw[1]);
    TwoArrivals(k, 100, 105);
    TwoArrivals(k, 110, 105);
  }

  function ThreeShreds(k: ShredKey, t: Instant, t': Instant, t'': Instant): seq<Event> {
    [ShredEvent(1, k, t), ShredEvent(2, k, t'), ShredEvent(2, k, t'')]
  }

  lemma ThreeArrivals(kk: ShredKey, t: Instant, t': Instant, t'': Instant, k: ShredKey)
    ensures Arrivals(ThreeShreds(kk, t, t', t''), k)
            == if k == kk then [Arrival(1, t), Arrival(2, t'), Arrival(2, t'')] else []
    ensures LatencyOf([Arrival(1, t), Arrival(2, t'), Arrival(2, t'')], 2)
            == Some(AsU64(SaturatingSub(if t' < t'' then t' else t'', t)))
  {
    var a, b, c := ShredEvent(1, kk, t), ShredEvent(2, kk, t'), ShredEvent(2, kk, t'');
    ArrivalsOfOne(a, k);
    ArrivalsSnoc([a], b, k);
    ArrivalsSnoc([a] + [b], c, k);
    assert [a, b, c] == [a] + [b] + [c];
    var first := [Arrival(1, t)];
    assert Front(first) == [] && TimesFrom(first, 2) == [];
    Snoc(first, Arrival(2, t'));
    Snoc(first + [Arrival(2, t')], Arrival(2, t''));
    assert first + [Arrival(2, t')] + [Arrival(2, t'')] == [Arrival(1, t), Arrival(2, t'), Arrival(2, t'')];
    assert TimesFrom([Arrival(1, t), Arrival(2, t'), Arrival(2, t'')], 2) == [t', t''];
  }

  lemma OneOfTwo(h: seq<Event>, h': seq<Event>, k: ShredKey)
    ensures Arrivals(h', k) == [] ==> Arrivals(h + h', k) == Arrivals(h, k)
    ensures Arrivals(h, k) == [] ==> Arrivals(h + h', k) == Arrivals(h', k)
  {
    ArrivalsConcat(h, h', k);
  }

  lemma LatencyOfOne(h: seq<Event>, k: ShredKey, t: Instant, t': Instant, t'': Instant)
    requires Arrivals(h, k) == [Arrival(1, t), Arrival(2, t'), Arrival(2, t'')]
    ensures LatencyIn(h, 2)(k) == Some(AsU64(SaturatingSub(if t' < t'' then t' else t'', t)))
  {
    hide LatencyOf, Arrivals;
    ThreeArrivals(k, t, t', t'', k);
  }

  lemma TwoShreds(k: ShredKey, l: ShredKey, offset: int)
    requires k != l
    ensures var h := ThreeShreds(k, 0, offset, 1) + ThreeShreds(l, offset, 1 + offset, 1);
            && LatencyIn(h, 2)(k) == Some(if offset <= 0 then 0 else 1)
            && LatencyIn(h, 2)(l) == Some(if offset <= 0 then 1 else 0)
  {
    hide Arrivals, ThreeShreds, LatencyIn, LatencyOf;
    var first, second := ThreeShreds(k, 0, offset, 1), ThreeShreds(l, offset, 1 + offset, 1);
    ThreeArrivals(k, 0, offset, 1, l);
    ThreeArrivals(l, offset, 1 + offset, 1, k);
    OneOfTwo(first, second, k);
    OneOfTwo(first, second, l);
    ThreeArrivals(k, 0, offset, 1, k);
    ThreeArrivals(l, offset, 1 + offset, 1, l);
    LatencyOfOne(first + second, k, 0, offset, 1);
    LatencyOfOne(first + second, l, offset, 1 + offset, 1);
  }

  lemma ReadSnoc(raw: seq<Reading>, r: Reading, offset: int)
    ensures AtOffset(raw + [r], offset) == AtOffset(raw, offset) + [ReadAt(r, offset)]
  {
    Snoc(raw, r);
  }

  lemma ReadThree(raw: seq<Reading>, p: Reading, q: Reading, r: Reading, offset: int)
    ensures AtOffset(raw + [p, q, r], offset)
            == AtOffset(raw, offset) + [ReadAt(p, offset), ReadAt(q, offset), ReadAt(r, offset)]
  {
    assert raw + [p, q, r] == raw + [p] + [q] + [r];
    ReadSnoc(raw, p, offset);
    ReadSnoc(raw + [p], q, offset);
    ReadSnoc(raw + [p] + [q], r, offset);
  }

  /** Two shreds from two sources: one first read in userland, the other first stamped by the kernel. */
  function TradingReadings(k: ShredKey, l: ShredKey): seq<Reading> {
    [Userland(ShredEvent(1, k, 0)), Kernel(2, k, 0), Userland(ShredEvent(2, k, 1))]
    + [Kernel(1, l, 0), Kernel(2, l, 1), Userland(ShredEvent(2, l, 1))]
  }

  lemma TradingEvents(k: ShredKey, l: ShredKey, offset: int)
    ensures AtOffset(TradingReadings(k, l), offset)
            == ThreeShreds(k, 0, offset, 1) + ThreeShreds(l, offset, 1 + offset, 1)
  {
    var before := [Userland(ShredEvent(1, k, 0)), Kernel(2, k, 0), Userland(ShredEvent(2, k, 1))];
    ReadThree([], before[0], before[1], before[2], offset);
    ReadThree(before, Kernel(1, l, 0), Kernel(2, l, 1), Userland(ShredEvent(2, l, 1)), offset);
    assert [] + before == before;
  }

  /** Wins counted over all shreds may agree although the shreds do not: here the
      second source wins exactly one of two shreds under every offset, the first
      while it is at most 0, the other from 1 on. */
  lemma ShredsMayTradePlaces(k: ShredKey, l: ShredKey, offset: int)
    requires k != l
    ensures LatencyIn(AtOffset(TradingReadings(k, l), offset), 2)(k) == Some(if offset <= 0 then 0 else 1)
    ensures LatencyIn(AtOffset(TradingReadings(k, l), offset), 2)(l) == Some(if offset <= 0 then 1 else 0)
  {
    TradingEvents(k, l, offset);
    TwoShreds(k, l, offset);
  }

  lemma AnchorsAgreeOnSlots(a: ClockAnchor, b: ClockAnchor, raw: seq<Reading>, id: SourceId, v: u64)
    requires ConvertsAll(a, raw) && ConvertsAll(b, raw)
    requires forall slot :: SlotSameUnder(raw, slot, id, a.Offset(), b.Offset())
    ensures SlotsAt(Stamp(a, raw), id, v) == SlotsAt(Stamp(b, raw), id, v)
  {
    AnchorsKeepKeys(a, b, raw, id);
    StampIsOffset(a, raw);
    StampIsOffset(b, raw);
    forall slot ensures SlotLatencyIn(Stamp(a, raw), id)(slot) == SlotLatencyIn(Stamp(b, raw), id)(slot) {
      SlotSame(raw, slot, id, a.Offset(), b.Offset());
    }
  }

  /** The latency of a source's entry in each slot is the same under every anchor
      that converts exactly, exactly when no shred of a slot that the source
      sent an event for has a kernel timestamp. */
  lemma SlotsAnchorFree(raw: seq<Reading>, id: SourceId)
    requires KernelSpan(raw)
    ensures (forall a, b, v: u64 | ConvertsAll(a, raw) && ConvertsAll(b, raw) ::
               SlotsAt(Stamp(a, raw), id, v) == SlotsAt(Stamp(b, raw), id, v))
       <==> forall slot | slot in SlotsFrom(OnUserland(raw), id) :: KernelShred(raw, slot).None?
  {
    if forall slot | slot in SlotsFrom(OnUserland(raw), id) :: KernelShred(raw, slot).None? {
      forall a, b, v: u64 | ConvertsAll(a, raw) && ConvertsAll(b, raw)
        ensures SlotsAt(Stamp(a, raw), id, v) == SlotsAt(Stamp(b, raw), id, v)
      {
        forall slot ensures SlotSameUnder(raw, slot, id, a.Offset(), b.Offset()) {
          SlotSeen(OnUserland(raw), slot, id);
        }
        AnchorsAgreeOnSlots(a, b, raw, id, v);
      }
    } else {
      var slot :| slot in SlotsFrom(OnUserland(raw), id) && KernelShred(raw, slot).Some?;
      SlotSeen(OnUserland(raw), slot, id);
      var o, o' := SlotOffsetsThatDiffer(raw, slot, id);
      var a := AnchorWith(raw, o);
      var b := AnchorWith(raw, o');
      StampIsOffset(a, raw);
      StampIsOffset(b, raw);
      SlotLatencyAt(raw, o, slot, id);
      EntriesStay(raw, o, slot, id);
      SlotSeen(Stamp(a, raw), slot, id);
      var v := SlotLatencyIn(Stamp(a, raw), id)(slot).value;
      assert slot in SlotsAt(Stamp(a, raw), id, v) && slot !in SlotsAt(Stamp(b, raw), id, v);
    }
  }

  /** Two given anchors give an entry source one bag of latencies and one
      summary of them if they agree on every slot. */
  lemma AnchorIrrelevantForSlots(fl: real -> real, a: ClockAnchor, b: ClockAnchor, raw: seq<Reading>, id: SourceId,
                                 st: EntrySourceStats, p: Percentiles, st': EntrySourceStats, p': Percentiles)
    requires ConvertsAll(a, raw) && ConvertsAll(b, raw)
    requires forall slot :: SlotSameUnder(raw, slot, id, a.Offset(), b.Offset())
    ensures SlotReports(st, Stamp(a, raw), id) && SlotReports(st', Stamp(b, raw), id) ==>
              && multiset(st.latency) == multiset(st'.latency)
              && (Summarizes(fl, p, st.latency) && Summarizes(fl, p', st'.latency) ==> p == p')
  {
    forall v: u64 ensures |SlotsAt(Stamp(a, raw), id, v)| == |SlotsAt(Stamp(b, raw), id, v)| {
      AnchorsAgreeOnSlots(a, b, raw, id, v);
    }
    if SlotReports(st, Stamp(a, raw), id) && SlotReports(st', Stamp(b, raw), id) {
      SlotReportsAgree(st, Stamp(a, raw), st', Stamp(b, raw), id);
      SummaryUnique(fl, st.latency, st'.latency, p, p');
    }
  }

  lemma ShredThenEntry(k: ShredKey, t: Instant, t': Instant)
    requires t <= t'
    ensures SlotLatencyIn([ShredEvent(1, k, t), SlotEvent(9, k.slot, t')], 9)(k.slot) == Some(AsU64(t' - t))
  {
    var first, second := ShredEvent(1, k, t), SlotEvent(9, k.slot, t');
    SlotTimesSnoc([], first, k.slot);
    SlotTimesSnoc([] + [first], second, k.slot);
    EntryTimesSnoc([], first, k.slot, 9);
    EntryTimesSnoc([] + [first], second, k.slot, 9);
    assert [first, second] == [] + [first] + [second];
  }

  /** Anchors 10 ns apart move the latency of an entry after a kernel-stamped shred by those 10 ns. */
  lemma AnchorMovesSlotLatency(k: ShredKey)
    ensures var raw := [Kernel(1, k, 100), Userland(SlotEvent(9, k.slot, 150))];
            && SlotLatencyIn(Stamp(ClockAnchor(0, 0, -1000), raw), 9)(k.slot) == Some(50)
            && SlotLatencyIn(Stamp(ClockAnchor(10, 0, -1000), raw), 9)(k.slot) == Some(40)
  {
    var raw := [Kernel(1, k, 100), Userland(SlotEvent(9, k.slot, 150))];
    StampTwo(ClockAnchor(0, 0, -1000), raw[0], raw[1]);
    StampTwo(ClockAnchor(10, 0, -1000), raw[0], raw[1]);
    ShredThenEntry(k, 100, 150);
    ShredThenEntry(k, 110, 150);
  }
}
