/** ClockAnchor of src/sources/kernel_ts.rs: kernel timestamps on the wall
    clock as instants of the monotonic clock. */
module ClockAnchor {
  import opened Bytes
  import opened Sequences
  import opened Shred
  import opened Registry

  /** `earliest` is the least instant the platform can represent: below it, checked_sub fails. */
  datatype ClockAnchor = ClockAnchor(instant: Instant, realtimeNs: int, earliest: Instant) {
    function InstantFromRealtimeNs(ts: int): Instant {
      var delta := ts - realtimeNs;
      if delta >= 0 then instant + AsU64(delta)
      else
        var back := AsU64(-delta);
        if instant - back >= earliest then instant - back else instant
    }

    /** A distance that fits 64 bits, to an instant that can be represented. */
    predicate Converts(ts: int) {
      && -TWO_TO_THE_64 < ts - realtimeNs < TWO_TO_THE_64
      && (ts < realtimeNs ==> instant + (ts - realtimeNs) >= earliest)
    }

    function Offset(): int {
      instant - realtimeNs
    }
  }

  /** Conversion is exact precisely when nothing is truncated and the fallback is not taken. */
  lemma ConversionExact(a: ClockAnchor, ts: int)
    ensures a.InstantFromRealtimeNs(ts) == ts + a.Offset() <==> a.Converts(ts)
  {
  }

  /** A time too early to be represented becomes the anchor's own instant, and
      every 2^64 ns away from the anchor, on either side, the conversion starts again. */
  lemma ConversionOtherwise(a: ClockAnchor, ts: int)
    ensures ts < a.realtimeNs < ts + 0x1_0000_0000_0000_0000 && a.instant + (ts - a.realtimeNs) < a.earliest ==>
              a.InstantFromRealtimeNs(ts) == a.instant
    ensures ts >= a.realtimeNs ==>
              a.InstantFromRealtimeNs(ts + 0x1_0000_0000_0000_0000) == a.InstantFromRealtimeNs(ts)
    ensures ts < a.realtimeNs ==>
              a.InstantFromRealtimeNs(ts - 0x1_0000_0000_0000_0000) == a.InstantFromRealtimeNs(ts)
  {
    AsU64Wraps(if ts >= a.realtimeNs then ts - a.realtimeNs else a.realtimeNs - ts);
  }

  /** Order and exact distances survive the conversion. */
  lemma ConversionKeepsDistances(a: ClockAnchor, ts: int, ts': int)
    requires a.Converts(ts) && a.Converts(ts')
    ensures a.InstantFromRealtimeNs(ts') - a.InstantFromRealtimeNs(ts) == ts' - ts
    ensures a.InstantFromRealtimeNs(ts) <= a.InstantFromRealtimeNs(ts') <==> ts <= ts'
  {
  }

  // ---- What is converted ----

  /** A time that a source reads: a shred's kernel timestamp, in wall-clock
      nanoseconds, or an event whose time is an instant already, as that of every
      slot event and of a shred without kernel timestamp is. */
  datatype Reading =
    | Kernel(source: SourceId, key: ShredKey, ts: int)
    | Userland(event: Event)

  function StampReading(a: ClockAnchor, r: Reading): Event {
    match r
    case Kernel(source, key, ts) => ShredEvent(source, key, a.InstantFromRealtimeNs(ts))
    case Userland(e) => e
  }

  /** The events that sources make of their readings. */
  function Stamp(a: ClockAnchor, raw: seq<Reading>): seq<Event> {
    if raw == [] then [] else Stamp(a, Front(raw)) + [StampReading(a, Last(raw))]
  }

  predicate ConvertsAll(a: ClockAnchor, raw: seq<Reading>) {
    forall r | r in raw && r.Kernel? :: a.Converts(r.ts)
  }

  function ReadAt(r: Reading, offset: int): Event {
    match r
    case Kernel(source, key, ts) => ShredEvent(source, key, ts + offset)
    case Userland(e) => e
  }

  /** The same events with the wall clock `offset` behind the monotonic one. */
  function AtOffset(raw: seq<Reading>, offset: int): seq<Event> {
    if raw == [] then [] else AtOffset(Front(raw), offset) + [ReadAt(Last(raw), offset)]
  }

  /** Of an anchor that converts every reading exactly, only its offset matters. */
  lemma {:induction false} StampIsOffset(a: ClockAnchor, raw: seq<Reading>)
    requires ConvertsAll(a, raw)
    ensures Stamp(a, raw) == AtOffset(raw, a.Offset())
  {
    if raw == [] {
    } else {
      assert raw == Front(raw) + [Last(raw)];
      StampIsOffset(a, Front(raw));
      if Last(raw).Kernel? {
        ConversionExact(a, Last(raw).ts);
      }
    }
  }

  /** No two kernel timestamps lie 2^64 ns or more apart. */
  predicate KernelSpan(raw: seq<Reading>) {
    forall r, r' | r in raw && r' in raw && r.Kernel? && r'.Kernel? :: r.ts - r'.ts < TWO_TO_THE_64
  }

  lemma {:induction false} LeastKernel(raw: seq<Reading>) returns (least: int)
    ensures forall r | r in raw && r.Kernel? :: least <= r.ts
    ensures (exists r :: r in raw && r.Kernel?) ==> exists r :: r in raw && r.Kernel? && r.ts == least
  {
    if raw == [] {
      least := 0;
    } else {
      var r := Last(raw);
      var before := LeastKernel(Front(raw));
      assert raw == Front(raw) + [r];
      least := before;
      if r.Kernel? && (r.ts < before || forall q | q in Front(raw) :: !q.Kernel?) {
        least := r.ts;
      }
    }
  }

  /** Any offset is that of some anchor that converts every reading. */
  lemma AnchorWith(raw: seq<Reading>, offset: int) returns (a: ClockAnchor)
    requires KernelSpan(raw)
    ensures ConvertsAll(a, raw) && a.Offset() == offset
  {
    var least := LeastKernel(raw);
    a := ClockAnchor(least + offset, least, least + offset);
  }
}
