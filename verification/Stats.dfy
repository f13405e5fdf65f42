/** src/stats.rs: the per-source tallies over the registry, the laws they obey,
    and what they say about the events that were recorded. */
module Stats {
  import opened Bytes
  import opened Sequences
  import opened Shred
  import opened Registry
  import opened Keyed

  // ---- One shred, one source ----

  /** An item of the shred table. The table is a hash map: a run sees its items
      in some order, an enumeration, which is an argument throughout. */
  datatype Entry = Entry(key: ShredKey, rec: ShredRecord)

  ghost predicate Enumerates(entries: seq<Entry>, m: map<ShredKey, ShredRecord>) {
    && Distinct(entries)
    && forall e :: e in entries <==> e.key in m && m[e.key] == e.rec
  }

  function KeyOf(e: Entry): ShredKey {
    e.key
  }

  lemma EnumerationSize(entries: seq<Entry>, m: map<ShredKey, ShredRecord>)
    requires Enumerates(entries, m)
    ensures DistinctBy(entries, KeyOf) && KeysWhere(entries, KeyOf, Any()) == m.Keys && |entries| == |m|
  {
    forall k | k in m ensures k in KeysWhere(entries, KeyOf, Any()) {
      assert Entry(k, m[k]) in entries && Any()(Entry(k, m[k])) && KeyOf(Entry(k, m[k])) == k;
    }
    assert KeysWhere(entries, KeyOf, Any()) == m.Keys;
    CountKeys(entries, KeyOf, Any());
    CountAny(entries);
  }

  function TimesFrom(arrivals: seq<Arrival>, id: SourceId): seq<Instant> {
    if arrivals == [] then []
    else if Last(arrivals).source == id then TimesFrom(Front(arrivals), id) + [Last(arrivals).at]
    else TimesFrom(Front(arrivals), id)
  }

  predicate Has(rec: ShredRecord, id: SourceId) {
    TimesFrom(rec.arrivals, id) != []
  }

  /** A source's earliest arrival of the shred. */
  function FirstFrom(rec: ShredRecord, id: SourceId): Instant
    requires Has(rec, id)
  {
    MinOf(TimesFrom(rec.arrivals, id))
  }

  /** `duration_since` saturates at zero; `as u64` truncates. */
  function Delta(rec: ShredRecord, id: SourceId): u64
    requires Has(rec, id)
  {
    AsU64(SaturatingSub(FirstFrom(rec, id), rec.firstSeen))
  }

  // ---- Tallies over an enumeration ----

  function ReceivedFrom(id: SourceId): Entry -> bool {
    (e: Entry) => Has(e.rec, id)
  }

  function MissedFrom(id: SourceId): Entry -> bool {
    (e: Entry) => !Has(e.rec, id)
  }

  function TypedFrom(id: SourceId, shredType: ShredType): Entry -> bool {
    (e: Entry) => Has(e.rec, id) && e.key.shredType == shredType
  }

  function WonBy(id: SourceId): Entry -> bool {
    (e: Entry) => Has(e.rec, id) && Delta(e.rec, id) == 0
  }

  function ArrivalsFrom(id: SourceId): Entry -> nat {
    (e: Entry) => |TimesFrom(e.rec.arrivals, id)|
  }

  function DupesFrom(id: SourceId): Entry -> nat {
    (e: Entry) => SaturatingSub(|TimesFrom(e.rec.arrivals, id)|, 1)
  }

  function LatencyFrom(id: SourceId): Entry -> Option<u64> {
    (e: Entry) => if Has(e.rec, id) then Some(Delta(e.rec, id)) else None
  }

  function Latencies(entries: seq<Entry>, id: SourceId): seq<u64> {
    Present(entries, LatencyFrom(id))
  }

  datatype SourceStats = SourceStats(id: SourceId, name: string, received: nat, dataShreds: nat, codeShreds: nat,
                                     wins: nat, missed: nat, dupes: nat, drops: nat, latency: seq<u64>)

  ghost predicate Tallies(st: SourceStats, entries: seq<Entry>, id: SourceId) {
    && st.id == id
    && st.received == CountIf(entries, ReceivedFrom(id))
    && st.missed == CountIf(entries, MissedFrom(id))
    && st.dataShreds == CountIf(entries, TypedFrom(id, Data))
    && st.codeShreds == CountIf(entries, TypedFrom(id, Code))
    && st.wins == CountIf(entries, WonBy(id))
    && st.dupes == SumOf(entries, DupesFrom(id))
    && st.latency == Latencies(entries, id)
  }

  lemma TalliesSnoc(entries: seq<Entry>, e: Entry, id: SourceId)
    ensures forall p: Entry -> bool :: CountIf(entries + [e], p) == CountIf(entries, p) + if p(e) then 1 else 0
    ensures forall f: Entry -> nat :: SumOf(entries + [e], f) == SumOf(entries, f) + f(e)
    ensures Latencies(entries + [e], id)
            == if Has(e.rec, id) then Latencies(entries, id) + [Delta(e.rec, id)] else Latencies(entries, id)
  {
    Snoc(entries, e);
  }

  // ---- Entry-level sources ----

  datatype SlotEntry = SlotEntry(slot: u64, rec: SlotRecord)

  ghost predicate EnumeratesSlots(entries: seq<SlotEntry>, m: map<u64, SlotRecord>) {
    && Distinct(entries)
    && forall e :: e in entries <==> e.slot in m && m[e.slot] == e.rec
  }

  function SlotKeyOf(e: SlotEntry): u64 {
    e.slot
  }

  lemma SlotEnumerationSize(entries: seq<SlotEntry>, m: map<u64, SlotRecord>)
    requires EnumeratesSlots(entries, m)
    ensures DistinctBy(entries, SlotKeyOf) && KeysWhere(entries, SlotKeyOf, Any()) == m.Keys && |entries| == |m|
  {
    forall s | s in m ensures s in KeysWhere(entries, SlotKeyOf, Any()) {
      assert SlotEntry(s, m[s]) in entries && Any()(SlotEntry(s, m[s])) && SlotKeyOf(SlotEntry(s, m[s])) == s;
    }
    assert KeysWhere(entries, SlotKeyOf, Any()) == m.Keys;
    CountKeys(entries, SlotKeyOf, Any());
    CountAny(entries);
  }

  function SeenBy(id: SourceId): SlotEntry -> bool {
    (e: SlotEntry) => Find(e.rec.entryArrivals, id).Some?
  }

  function SlotDelta(rec: SlotRecord, arrival: Instant): u64 {
    AsU64(SaturatingSub(arrival, rec.firstShredAt))
  }

  function SlotLatencyFrom(id: SourceId): SlotEntry -> Option<u64> {
    (e: SlotEntry) =>
      match Find(e.rec.entryArrivals, id)
      case None => None
      case Some(arrival) => Some(SlotDelta(e.rec, arrival))
  }

  function SlotLatencies(entries: seq<SlotEntry>, id: SourceId): seq<u64> {
    Present(entries, SlotLatencyFrom(id))
  }

  datatype EntrySourceStats = EntrySourceStats(id: SourceId, name: string, slotsSeen: nat, drops: nat,
                                               latency: seq<u64>)

  ghost predicate SlotTallies(st: EntrySourceStats, entries: seq<SlotEntry>, id: SourceId) {
    && st.id == id
    && st.slotsSeen == CountIf(entries, SeenBy(id))
    && st.latency == SlotLatencies(entries, id)
  }

  lemma SlotTalliesSnoc(entries: seq<SlotEntry>, e: SlotEntry, id: SourceId)
    ensures CountIf(entries + [e], SeenBy(id)) == CountIf(entries, SeenBy(id)) + if SeenBy(id)(e) then 1 else 0
    ensures SlotLatencies(entries + [e], id)
            == match Find(e.rec.entryArrivals, id)
               case None => SlotLatencies(entries, id)
               case Some(arrival) => SlotLatencies(entries, id) + [SlotDelta(e.rec, arrival)]
  {
    Snoc(entries, e);
  }

  // ---- compute_stats ----

  type Named = (SourceId, string)

  /** Up-to-date tallies for the source, name and drop count that `row` stands for. */
  ghost predicate TalliesFor(st: SourceStats, row: SourceStats, entries: seq<Entry>) {
    Tallies(st, entries, row.id) && st.name == row.name && st.drops == row.drops
  }

  /** The innermost body: one shred's contribution to one source's statistics. */
  method TallyOne(before: SourceStats, e: Entry, ghost seen: seq<Entry>) returns (st: SourceStats)
    requires TalliesFor(before, before, seen)
    ensures TalliesFor(st, before, seen + [e])
  {
    TalliesSnoc(seen, e, before.id);
    st := before;
    var arrivalsFromSource := TimesFrom(e.rec.arrivals, st.id);
    if arrivalsFromSource == [] {
      return st.(missed := st.missed + 1);
    }
    var first := MinOf(arrivalsFromSource);
    st := st.(received := st.received + 1);
    match e.key.shredType {
      case Data => st := st.(dataShreds := st.dataShreds + 1);
      case Code => st := st.(codeShreds := st.codeShreds + 1);
    }
    if |arrivalsFromSource| > 1 {
      st := st.(dupes := st.dupes + (|arrivalsFromSource| - 1));
    }
    var delta := AsU64(SaturatingSub(first, e.rec.firstSeen));
    if delta == 0 {
      st := st.(wins := st.wins + 1);
    }
    st := st.(latency := st.latency + [delta]);
  }

  /** One shred's contribution to the statistics of every source. */
  method TallyEntry(before: seq<SourceStats>, e: Entry, ghost seen: seq<Entry>) returns (stats: seq<SourceStats>)
    requires forall j | 0 <= j < |before| :: TalliesFor(before[j], before[j], seen)
    ensures |stats| == |before|
    ensures forall j | 0 <= j < |stats| :: TalliesFor(stats[j], before[j], seen + [e])
  {
    stats := before;
    for j := 0 to |stats|
      invariant |stats| == |before|
      invariant forall l | 0 <= l < j :: TalliesFor(stats[l], before[l], seen + [e])
      invariant forall l | j <= l < |before| :: stats[l] == before[l]
    {
      var st := TallyOne(stats[j], e, seen);
      stats := stats[j := st];
    }
  }

  method ComputeSourceStats(entries: seq<Entry>, sources: seq<Named>, drops: DropCounters)
    returns (stats: seq<SourceStats>)
    ensures |stats| == |sources|
    ensures forall j | 0 <= j < |sources| ::
              Tallies(stats[j], entries, sources[j].0)
              && stats[j].name == sources[j].1 && stats[j].drops == drops.Get(sources[j].0)
  {
    stats := seq(|sources|, j requires 0 <= j < |sources| reads drops =>
                 SourceStats(sources[j].0, sources[j].1, 0, 0, 0, 0, 0, 0, drops.Get(sources[j].0), []));
    for i := 0 to |entries|
      invariant |stats| == |sources|
      invariant forall j | 0 <= j < |sources| :: Tallies(stats[j], entries[..i], sources[j].0)
      invariant forall j | 0 <= j < |sources| ::
                  stats[j].name == sources[j].1 && stats[j].drops == drops.Get(sources[j].0)
    {
      assert entries[..i + 1] == entries[..i] + [entries[i]];
      stats := TallyEntry(stats, entries[i], entries[..i]);
    }
    assert entries[..|entries|] == entries;
  }

  method TallySlot(before: EntrySourceStats, e: SlotEntry, ghost seen: seq<SlotEntry>) returns (st: EntrySourceStats)
    requires SlotTallies(before, seen, before.id)
    ensures SlotTallies(st, seen + [e], before.id) && st.name == before.name && st.drops == before.drops
  {
    SlotTalliesSnoc(seen, e, before.id);
    st := before;
    var found := Find(e.rec.entryArrivals, st.id);
    if found.Some? {
      var arrival := found.value;
      st := st.(slotsSeen := st.slotsSeen + 1);
      var delta := if arrival >= e.rec.firstShredAt then AsU64(arrival - e.rec.firstShredAt) else 0;
      st := st.(latency := st.latency + [delta]);
    }
  }

  method ComputeEntryStats(entries: seq<SlotEntry>, sources: seq<Named>, drops: DropCounters)
    returns (stats: seq<EntrySourceStats>)
    ensures |stats| == |sources|
    ensures forall j | 0 <= j < |sources| ::
              SlotTallies(stats[j], entries, sources[j].0)
              && stats[j].name == sources[j].1 && stats[j].drops == drops.Get(sources[j].0)
  {
    stats := seq(|sources|, j requires 0 <= j < |sources| reads drops =>
                 EntrySourceStats(sources[j].0, sources[j].1, 0, drops.Get(sources[j].0), []));
    for i := 0 to |entries|
      invariant |stats| == |sources|
      invariant forall j | 0 <= j < |sources| :: SlotTallies(stats[j], entries[..i], sources[j].0)
      invariant forall j | 0 <= j < |sources| ::
                  stats[j].name == sources[j].1 && stats[j].drops == drops.Get(sources[j].0)
    {
      assert entries[..i + 1] == entries[..i] + [entries[i]];
      for j := 0 to |stats|
        invariant |stats| == |sources|
        invariant forall l | 0 <= l < j :: SlotTallies(stats[l], entries[..i + 1], sources[l].0)
        invariant forall l | j <= l < |sources| :: SlotTallies(stats[l], entries[..i], sources[l].0)
        invariant forall l | 0 <= l < |sources| ::
                    stats[l].name == sources[l].1 && stats[l].drops == drops.Get(sources[l].0)
      {
        var st := TallySlot(stats[j], entries[i], entries[..i]);
        stats := stats[j := st];
      }
    }
    assert entries[..|entries|] == entries;
  }

  datatype GrpcOverheadStats = GrpcOverheadStats(id: SourceId, name: string, samples: nat, latency: seq<u64>)

  function SampledIn(ids: set<SourceId>): Named -> bool {
    (source: Named) => source.0 in ids
  }

  /** One row for each of the sources, in order, with its samples. */
  ghost predicate RowsFor(rows: seq<GrpcOverheadStats>, sampled: seq<Named>, samples: map<SourceId, seq<u64>>) {
    && |rows| == |sampled|
    && forall i | 0 <= i < |rows| ::
         && sampled[i].0 in samples
         && rows[i] == GrpcOverheadStats(sampled[i].0, sampled[i].1, |samples[sampled[i].0]|, samples[sampled[i].0])
  }

  /** The sources without samples get no row. */
  method ComputeGrpcOverhead(grpcLatencies: map<SourceId, seq<u64>>, sources: seq<Named>)
    returns (rows: seq<GrpcOverheadStats>)
    ensures RowsFor(rows, Filter(sources, SampledIn(grpcLatencies.Keys)), grpcLatencies)
  {
    rows := [];
    for i := 0 to |sources|
      invariant RowsFor(rows, Filter(sources[..i], SampledIn(grpcLatencies.Keys)), grpcLatencies)
    {
      assert sources[..i + 1] == sources[..i] + [sources[i]];
      FilterSnoc(sources[..i], sources[i], SampledIn(grpcLatencies.Keys));
      var id := sources[i].0;
      if id in grpcLatencies {
        var v := grpcLatencies[id];
        rows := rows + [GrpcOverheadStats(id, sources[i].1, |v|, v)];
      }
    }
    assert sources[..|sources|] == sources;
  }

  /** The printed slot range. */
  method SlotRange(entries: seq<SlotEntry>) returns (minSlot: u64, maxSlot: u64)
    ensures forall e | e in entries :: e.slot <= maxSlot
    ensures if entries == [] then maxSlot == 0 else exists e :: e in entries && e.slot == maxSlot
    ensures if forall e | e in entries :: e.slot == U64_MAX then minSlot == 0
            else (forall e | e in entries :: minSlot <= e.slot) && exists e :: e in entries && e.slot == minSlot
  {
    minSlot, maxSlot := U64_MAX, 0;
    for i := 0 to |entries|
      invariant forall e | e in entries[..i] :: minSlot <= e.slot <= maxSlot
      invariant minSlot == U64_MAX || exists e :: e in entries[..i] && e.slot == minSlot
      invariant (i == 0 && maxSlot == 0) || exists e :: e in entries[..i] && e.slot == maxSlot
    {
      assert entries[..i + 1] == entries[..i] + [entries[i]];
      var slot := entries[i].slot;
      minSlot := if slot < minSlot then slot else minSlot;
      maxSlot := if slot > maxSlot then slot else maxSlot;
      assert entries[i] in entries[..i + 1];
    }
    assert entries[..|entries|] == entries;
    if minSlot == U64_MAX {
      minSlot := 0;
    }
  }

  // ---- Counting laws ----

  function IsZero(x: u64): bool {
    x == 0
  }

  lemma {:induction false} CountsAdd(entries: seq<Entry>, id: SourceId)
    ensures CountIf(entries, ReceivedFrom(id)) + CountIf(entries, MissedFrom(id)) == |entries|
    ensures CountIf(entries, TypedFrom(id, Data)) + CountIf(entries, TypedFrom(id, Code))
            == CountIf(entries, ReceivedFrom(id))
    ensures CountIf(entries, ReceivedFrom(id)) + SumOf(entries, DupesFrom(id)) == SumOf(entries, ArrivalsFrom(id))
    ensures |Latencies(entries, id)| == CountIf(entries, ReceivedFrom(id))
  {
    if entries == [] {
    } else {
      CountsAdd(Front(entries), id);
    }
  }

  lemma {:induction false} WinsAreZeros(entries: seq<Entry>, id: SourceId)
    ensures CountIf(entries, WonBy(id)) == CountIf(Latencies(entries, id), IsZero)
  {
    if entries == [] {
    } else {
      var before, e := Front(entries), Last(entries);
      WinsAreZeros(before, id);
      assert entries == before + [e];
      TalliesSnoc(before, e, id);
      if Has(e.rec, id) {
        CountIfSnoc(Latencies(before, id), Delta(e.rec, id), IsZero);
      }
    }
  }

  /** For every registry, enumeration and source. */
  lemma CountingLaws(entries: seq<Entry>, id: SourceId, st: SourceStats)
    requires Tallies(st, entries, id)
    ensures st.received + st.missed == |entries|
    ensures st.dataShreds + st.codeShreds == st.received
    ensures st.received + st.dupes == SumOf(entries, ArrivalsFrom(id))
    ensures |st.latency| == st.received
    ensures st.wins == CountIf(st.latency, IsZero)
  {
    CountsAdd(entries, id);
    WinsAreZeros(entries, id);
  }

  lemma {:induction false} SlotsSeenCounted(entries: seq<SlotEntry>, id: SourceId)
    ensures |SlotLatencies(entries, id)| == CountIf(entries, SeenBy(id)) <= |entries|
  {
    if entries == [] {
    } else {
      SlotsSeenCounted(Front(entries), id);
    }
  }

  /** One latency per slot seen, and no more slots seen than the table has. */
  lemma SlotCountingLaws(entries: seq<SlotEntry>, m: map<u64, SlotRecord>, id: SourceId, st: EntrySourceStats)
    requires EnumeratesSlots(entries, m) && SlotTallies(st, entries, id)
    ensures |st.latency| == st.slotsSeen <= |m|
  {
    SlotsSeenCounted(entries, id);
    SlotEnumerationSize(entries, m);
  }
}
