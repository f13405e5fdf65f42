/** compute_stats of src/stats.rs as a whole: everything it returns, for any
    order of the hash maps, as a function of the recorded events. */
module Report {
  import opened Bytes
  import opened Sequences
  import opened Shred
  import opened Registry
  import opened Stats
  import opened Replay
  import Order

  datatype BenchmarkStats = BenchmarkStats(
    sources: seq<SourceStats>, totalUniqueShreds: nat,
    entrySources: seq<EntrySourceStats>, totalSlots: nat,
    grpcOverhead: seq<GrpcOverheadStats>, minSlot: u64, maxSlot: u64)

  /** Stands for iterating over the shred table: its items in some order. */
  method ListShreds(m: map<ShredKey, ShredRecord>) returns (entries: seq<Entry>)
    ensures Enumerates(entries, m)
  {
    entries := [];
    var left := m.Keys;
    while left != {}
      invariant left <= m.Keys && Distinct(entries)
      invariant forall e :: e in entries <==> e.key in m && e.key !in left && m[e.key] == e.rec
    {
      var k :| k in left;
      entries, left := entries + [Entry(k, m[k])], left - {k};
    }
  }

  method ListSlots(m: map<u64, SlotRecord>) returns (entries: seq<SlotEntry>)
    ensures EnumeratesSlots(entries, m)
  {
    entries := [];
    var left := m.Keys;
    while left != {}
      invariant left <= m.Keys && Distinct(entries)
      invariant forall e :: e in entries <==> e.slot in m && e.slot !in left && m[e.slot] == e.rec
    {
      var s :| s in left;
      entries, left := entries + [SlotEntry(s, m[s])], left - {s};
    }
  }

  // ---- What is reported, in terms of the history ----

  ghost predicate ReportsShreds(stats: seq<SourceStats>, h: seq<Event>, sources: seq<Named>) {
    && |stats| == |sources|
    && forall j | 0 <= j < |sources| :: Reports(stats[j], h, sources[j].0) && stats[j].name == sources[j].1
  }

  ghost predicate ReportsSlots(stats: seq<EntrySourceStats>, h: seq<Event>, sources: seq<Named>) {
    && |stats| == |sources|
    && forall j | 0 <= j < |sources| :: SlotReports(stats[j], h, sources[j].0) && stats[j].name == sources[j].1
  }

  function HasSamples(h: seq<Event>): Named -> bool {
    (source: Named) => Samples(h, source.0) != []
  }

  /** One row for each source that sent samples, in the order of the sources,
      holding them in the order in which they were recorded. */
  ghost predicate ReportsSamples(rows: seq<GrpcOverheadStats>, h: seq<Event>, sources: seq<Named>) {
    var sampled := Filter(sources, HasSamples(h));
    && |rows| == |sampled|
    && forall i | 0 <= i < |rows| ::
         && rows[i].id == sampled[i].0 && rows[i].name == sampled[i].1
         && rows[i].latency == Samples(h, rows[i].id) && rows[i].samples == |rows[i].latency|
  }

  ghost predicate ReportsRange(minSlot: u64, maxSlot: u64, slots: set<u64>) {
    && (forall s | s in slots :: s <= maxSlot)
    && (if slots == {} then maxSlot == 0 else maxSlot in slots)
    && (if forall s | s in slots :: s == U64_MAX then minSlot == 0
        else minSlot in slots && forall s | s in slots :: minSlot <= s)
  }

  ghost predicate ReportsAll(stats: BenchmarkStats, h: seq<Event>, shredSources: seq<Named>, entrySources: seq<Named>) {
    && ReportsShreds(stats.sources, h, shredSources) && stats.totalUniqueShreds == |Keys(h)|
    && ReportsSlots(stats.entrySources, h, entrySources) && stats.totalSlots == |SlotsIn(h)|
    && ReportsSamples(stats.grpcOverhead, h, entrySources)
    && ReportsRange(stats.minSlot, stats.maxSlot, SlotsIn(h))
  }

  // ---- compute_stats ----

  method ReportShreds(reg: Registry, sources: seq<Named>, drops: DropCounters) returns (stats: seq<SourceStats>)
    requires reg.Valid()
    ensures ReportsShreds(stats, reg.history, sources) && |reg.shreds| == |Keys(reg.history)|
    ensures forall j | 0 <= j < |sources| :: stats[j].drops == drops.Get(sources[j].0)
  {
    var entries := ListShreds(reg.shreds);
    stats := ComputeSourceStats(entries, sources, drops);
    EnumerationSize(entries, reg.shreds);
    EnumerationKeys(entries, reg.shreds, reg.history);
    forall j | 0 <= j < |sources| ensures Reports(stats[j], reg.history, sources[j].0) {
      TalliesFromHistory(entries, reg.shreds, reg.history, sources[j].0, stats[j]);
    }
  }

  lemma RangeOfSlots(entries: seq<SlotEntry>, m: map<u64, SlotRecord>, h: seq<Event>, minSlot: u64, maxSlot: u64)
    requires EnumeratesSlots(entries, m) && SlotsExact(m, h)
    requires forall e | e in entries :: e.slot <= maxSlot
    requires if entries == [] then maxSlot == 0 else exists e :: e in entries && e.slot == maxSlot
    requires if forall e | e in entries :: e.slot == U64_MAX then minSlot == 0
             else (forall e | e in entries :: minSlot <= e.slot) && exists e :: e in entries && e.slot == minSlot
    ensures ReportsRange(minSlot, maxSlot, SlotsIn(h)) && |m| == |SlotsIn(h)|
  {
    SlotEnumerationKeys(entries, m, h, 0);
    SlotEnumerationSize(entries, m);
    forall s | s in SlotsIn(h) ensures exists e :: e in entries && e.slot == s {
      assert SlotEntry(s, m[s]) in entries;
    }
    forall e | e in entries ensures e.slot in SlotsIn(h) { assert e.slot in m.Keys; }
  }

  method ReportSlots(reg: Registry, sources: seq<Named>, drops: DropCounters)
    returns (stats: seq<EntrySourceStats>, minSlot: u64, maxSlot: u64)
    requires reg.Valid()
    ensures ReportsSlots(stats, reg.history, sources) && |reg.slots| == |SlotsIn(reg.history)|
    ensures ReportsRange(minSlot, maxSlot, SlotsIn(reg.history))
    ensures forall j | 0 <= j < |sources| :: stats[j].drops == drops.Get(sources[j].0)
  {
    var listed := ListSlots(reg.slots);
    minSlot, maxSlot := SlotRange(listed);
    RangeOfSlots(listed, reg.slots, reg.history, minSlot, maxSlot);
    var entries := ListSlots(reg.slots);
    stats := ComputeEntryStats(entries, sources, drops);
    forall j | 0 <= j < |sources| ensures SlotReports(stats[j], reg.history, sources[j].0) {
      SlotTalliesFromHistory(entries, reg.slots, reg.history, sources[j].0, stats[j]);
    }
  }

  /** The whole of compute_stats, for any registry that its methods have filled:
      what it returns is what the recorded events and the drop counters say. */
  method ComputeStats(reg: Registry, shredSources: seq<Named>, entrySources: seq<Named>, drops: DropCounters)
    returns (stats: BenchmarkStats)
    requires reg.Valid()
    ensures ReportsAll(stats, reg.history, shredSources, entrySources)
    ensures forall j | 0 <= j < |shredSources| :: stats.sources[j].drops == drops.Get(shredSources[j].0)
    ensures forall j | 0 <= j < |entrySources| :: stats.entrySources[j].drops == drops.Get(entrySources[j].0)
  {
    var sources := ReportShreds(reg, shredSources, drops);
    var slots, minSlot, maxSlot := ReportSlots(reg, entrySources, drops);
    var rows := ComputeGrpcOverhead(reg.grpcLatencies, entrySources);
    stats := BenchmarkStats(sources, |reg.shreds|, slots, |reg.slots|, rows, minSlot, maxSlot);
    assert SamplesExact(reg.grpcLatencies, reg.history);
    FilterSame(entrySources, SampledIn(reg.grpcLatencies.Keys), HasSamples(reg.history));
  }

  // ---- Independence of the order of recording ----

  ghost predicate SameTallies(a: SourceStats, b: SourceStats) {
    && a.received == b.received && a.missed == b.missed && a.dupes == b.dupes
    && a.dataShreds == b.dataShreds && a.codeShreds == b.codeShreds
  }

  ghost predicate SameSamples(rows: seq<GrpcOverheadStats>, rows': seq<GrpcOverheadStats>) {
    && |rows| == |rows'|
    && forall i | 0 <= i < |rows| ::
         && rows[i].id == rows'[i].id && rows[i].name == rows'[i].name && rows[i].samples == rows'[i].samples
         && multiset(rows[i].latency) == multiset(rows'[i].latency)
  }

  /** Everything reported but the wins, the latencies and the drops. */
  ghost predicate SameCounts(a: BenchmarkStats, b: BenchmarkStats) {
    && a.totalUniqueShreds == b.totalUniqueShreds && a.totalSlots == b.totalSlots
    && a.minSlot == b.minSlot && a.maxSlot == b.maxSlot
    && |a.sources| == |b.sources| && (forall j | 0 <= j < |a.sources| :: SameTallies(a.sources[j], b.sources[j]))
    && |a.entrySources| == |b.entrySources|
    && (forall j | 0 <= j < |a.entrySources| :: a.entrySources[j].slotsSeen == b.entrySources[j].slotsSeen)
    && SameSamples(a.grpcOverhead, b.grpcOverhead)
  }

  lemma SamplesIgnoreOrder(rows: seq<GrpcOverheadStats>, h: seq<Event>, rows': seq<GrpcOverheadStats>, h': seq<Event>,
                           sources: seq<Named>)
    requires multiset(h) == multiset(h') && ReportsSamples(rows, h, sources) && ReportsSamples(rows', h', sources)
    ensures SameSamples(rows, rows')
  {
    forall id: SourceId
      ensures |Samples(h, id)| == |Samples(h', id)| && multiset(Samples(h, id)) == multiset(Samples(h', id))
    {
      Order.SameSamples(h, h', id);
      assert |multiset(Samples(h, id))| == |Samples(h, id)| && |multiset(Samples(h', id))| == |Samples(h', id)|;
    }
    FilterSame(sources, HasSamples(h), HasSamples(h'));
  }

  lemma TalliesIgnoreOrder(a: SourceStats, h: seq<Event>, b: SourceStats, h': seq<Event>, id: SourceId)
    requires multiset(h) == multiset(h') && Reports(a, h, id) && Reports(b, h', id)
    ensures SameTallies(a, b)
  {
    Order.SameKeys(h, h', id);
    CountIfBag(h, h', ShredFrom(id));
  }

  /** Reports on permutations of the same events agree in everything but the wins, the latencies and the drops. */
  lemma ReportIgnoresOrder(a: BenchmarkStats, h: seq<Event>, b: BenchmarkStats, h': seq<Event>,
                           shredSources: seq<Named>, entrySources: seq<Named>)
    requires multiset(h) == multiset(h')
    requires ReportsAll(a, h, shredSources, entrySources) && ReportsAll(b, h', shredSources, entrySources)
    ensures SameCounts(a, b)
  {
    Order.SameKeys(h, h', 0);
    forall j | 0 <= j < |a.sources| ensures SameTallies(a.sources[j], b.sources[j]) {
      TalliesIgnoreOrder(a.sources[j], h, b.sources[j], h', shredSources[j].0);
    }
    forall j | 0 <= j < |a.entrySources| ensures a.entrySources[j].slotsSeen == b.entrySources[j].slotsSeen {
      Order.SameKeys(h, h', entrySources[j].0);
    }
    SamplesIgnoreOrder(a.grpcOverhead, h, b.grpcOverhead, h', entrySources);
  }
}
