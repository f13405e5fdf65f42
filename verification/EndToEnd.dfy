/** The whole measurement path: from the events sources produce, through the
    channels and the aggregator, to the printed statistics. */
module EndToEnd {
  import opened Bytes
  import opened Sequences
  import opened Shred
  import opened Registry
  import opened Stats
  import Replay
  import Report
  import opened Aggregator
  import Bench
  import opened Pcap
  import opened Capture

  lemma CountAcross(s: State, p: Event -> bool)
    requires Conserved(s)
    ensures CountIf(s.inbox.produced, p)
            == CountIf(s.task.history, p) + CountIf(s.task.discarded, p) + CountIf(s.inbox.dropped, p)
               + CountIf(s.inbox.shreds, p) + CountIf(s.inbox.slots, p) + CountIf(s.inbox.grpc, p)
  {
    var b, k := s.inbox, s.task;
    var all := k.history + k.discarded + b.dropped + b.shreds + b.slots + b.grpc;
    CountIfBag(b.produced, all, p);
    CountIfConcat(k.history, k.discarded, p);
    CountIfConcat(k.history + k.discarded, b.dropped, p);
    CountIfConcat(k.history + k.discarded + b.dropped, b.shreds, p);
    CountIfConcat(k.history + k.discarded + b.dropped + b.shreds, b.slots, p);
    CountIfConcat(k.history + k.discarded + b.dropped + b.shreds + b.slots, b.grpc, p);
  }

  function SlotEventFrom(id: SourceId): Event -> bool {
    (e: Event) => e.SlotEvent? && e.source == id
  }

  lemma {:induction false} KindsOfSource(h: seq<Event>, id: SourceId)
    ensures CountIf(h, From(id)) == CountIf(h, ShredFrom(id)) + CountIf(h, SlotEventFrom(id)) + |Samples(h, id)|
  {
    if h == [] {
    } else {
      KindsOfSource(Front(h), id);
    }
  }

  /** For every source, in every state that conserves events: what it produced
      was recorded as shreds, slot events and samples, discarded, dropped, or is
      still in one of the channels. */
  lemma ProducedSplit(s: State, id: SourceId)
    requires Conserved(s)
    ensures CountIf(s.inbox.produced, From(id))
            == CountIf(s.task.history, ShredFrom(id)) + CountIf(s.task.history, SlotEventFrom(id))
               + |Samples(s.task.history, id)| + CountIf(s.task.discarded, From(id)) + s.inbox.DropsOf(id)
               + CountIf(s.inbox.shreds, From(id)) + CountIf(s.inbox.slots, From(id)) + CountIf(s.inbox.grpc, From(id))
  {
    CountAcross(s, From(id));
    KindsOfSource(s.task.history, id);
    assert s.inbox.DropsOf(id) == CountIf(s.inbox.dropped, From(id));
  }

  lemma CountNone(xs: seq<Event>, p: Event -> bool)
    requires forall x | x in xs :: !p(x)
    ensures CountIf(xs, p) == 0
  {
  }

  lemma WhereProducedEventsAre(s: State, e: Event)
    requires Conserved(s)
    ensures e in s.task.history || e in s.inbox.shreds || e in s.inbox.slots || e in s.inbox.grpc
            ==> e in s.inbox.produced
  {
    assert e in s.task.history ==> e in multiset(s.task.history);
    assert e in s.inbox.shreds ==> e in multiset(s.inbox.shreds);
    assert e in s.inbox.slots ==> e in multiset(s.inbox.slots);
    assert e in s.inbox.grpc ==> e in multiset(s.inbox.grpc);
    assert e in multiset(s.inbox.produced) ==> e in s.inbox.produced;
  }

  lemma OnItsChannel(s: State, c: Channel, e: Event)
    requires Conserved(s) && e in s.inbox.Queue(c)
    ensures ChannelOf(e) == c && e in s.inbox.produced
  {
    assert s.inbox.ChannelInOrder(c);
    WhereProducedEventsAre(s, e);
  }

  lemma {:induction false} NoSamplesFrom(h: seq<Event>, id: SourceId)
    requires forall e | e in h && e.source == id :: !e.GrpcLatencyEvent?
    ensures Samples(h, id) == []
  {
    if h == [] {
    } else {
      assert h == Front(h) + [Last(h)];
      NoSamplesFrom(Front(h), id);
    }
  }

  /** The source sends shreds and nothing else. */
  ghost predicate ShredsOnly(produced: seq<Event>, id: SourceId) {
    forall e | e in produced && e.source == id :: e.ShredEvent?
  }

  lemma ShredSourceSplit(s: State, id: SourceId)
    requires Conserved(s) && ShredsOnly(s.inbox.produced, id)
    ensures CountIf(s.inbox.produced, From(id))
            == CountIf(s.task.history, ShredFrom(id)) + CountIf(s.task.discarded, From(id)) + s.inbox.DropsOf(id)
               + CountIf(s.inbox.shreds, From(id))
  {
    ProducedSplit(s, id);
    forall e | e in s.task.history && e.source == id ensures e.ShredEvent? { WhereProducedEventsAre(s, e); }
    forall e | e in s.inbox.slots ensures e.source != id { OnItsChannel(s, Slots, e); }
    forall e | e in s.inbox.grpc ensures e.source != id { OnItsChannel(s, Grpc, e); }
    CountNone(s.task.history, SlotEventFrom(id));
    NoSamplesFrom(s.task.history, id);
    CountNone(s.inbox.slots, From(id));
    CountNone(s.inbox.grpc, From(id));
  }

  /** The source sends slot events and samples only. */
  ghost predicate NoShreds(produced: seq<Event>, id: SourceId) {
    forall e | e in produced && e.source == id :: !e.ShredEvent?
  }

  lemma EntrySourceSplit(s: State, id: SourceId)
    requires Conserved(s) && NoShreds(s.inbox.produced, id)
    ensures CountIf(s.inbox.produced, From(id))
            == CountIf(s.task.history, SlotEventFrom(id)) + |Samples(s.task.history, id)|
               + CountIf(s.task.discarded, From(id)) + s.inbox.DropsOf(id)
               + CountIf(s.inbox.slots, From(id)) + CountIf(s.inbox.grpc, From(id))
  {
    ProducedSplit(s, id);
    forall e | e in s.task.history && e.source == id ensures !e.ShredEvent? { WhereProducedEventsAre(s, e); }
    forall e | e in s.inbox.shreds ensures e.source != id { OnItsChannel(s, Shreds, e); }
    CountNone(s.task.history, ShredFrom(id));
    CountNone(s.inbox.shreds, From(id));
  }

  /** In every state of every run, for every shred-level source: what it
      produced is what the statistics call received and dupes, plus what the
      aggregator's guards discarded, plus its drop counter, plus what is still
      queued, in a channel that is never above its capacity. */
  lemma ProducedAccountedFor(cfg: Config, steps: seq<Step>, id: SourceId,
                             m: map<ShredKey, ShredRecord>, entries: seq<Entry>, st: SourceStats)
    requires ShredsOnly(Run(cfg, steps).inbox.produced, id)
    requires ShredsExact(m, Run(cfg, steps).task.history) && Enumerates(entries, m) && Tallies(st, entries, id)
    ensures var s := Run(cfg, steps);
            && CountIf(s.inbox.produced, From(id))
               == st.received + st.dupes + CountIf(s.task.discarded, From(id)) + s.inbox.DropsOf(id)
                  + CountIf(s.inbox.shreds, From(id))
            && |s.inbox.shreds| <= 65536
  {
    RunConserves(cfg, steps);
    assert Run(cfg, steps).inbox.ChannelInOrder(Shreds);
    ShredSourceSplit(Run(cfg, steps), id);
    Replay.TalliesFromHistory(entries, m, Run(cfg, steps).task.history, id, st);
  }

  /** The printed row of a shred source, against the state the run ended in. */
  ghost predicate RowAddsUp(s: State, st: SourceStats) {
    CountIf(s.inbox.produced, From(st.id))
    == st.received + st.dupes + CountIf(s.task.discarded, From(st.id)) + st.drops + CountIf(s.inbox.shreds, From(st.id))
  }

  /** The printed row of an entry source, whose one drop counter is for lost slot
      events and lost samples alike. */
  ghost predicate EntryRowAddsUp(s: State, st: EntrySourceStats) {
    CountIf(s.inbox.produced, From(st.id))
    == CountIf(s.task.history, SlotEventFrom(st.id)) + |Samples(s.task.history, st.id)|
       + CountIf(s.task.discarded, From(st.id)) + st.drops
       + CountIf(s.inbox.slots, From(st.id)) + CountIf(s.inbox.grpc, From(st.id))
  }

  /** A whole measurement: a run of the program, then its statistics. They are
      what the recorded events say, and each row of a source adds up. */
  method Measure(cfg: Config, steps: seq<Step>, shredSources: seq<Named>, entrySources: seq<Named>)
    returns (stats: Report.BenchmarkStats)
    ensures Report.ReportsAll(stats, Run(cfg, steps).task.history, shredSources, entrySources)
    ensures forall st | st in stats.sources && ShredsOnly(Run(cfg, steps).inbox.produced, st.id) ::
              RowAddsUp(Run(cfg, steps), st)
    ensures forall st | st in stats.entrySources && NoShreds(Run(cfg, steps).inbox.produced, st.id) ::
              EntryRowAddsUp(Run(cfg, steps), st)
  {
    var bench := Bench.RunBench(cfg, steps);
    stats := Report.ComputeStats(bench.registry, shredSources, entrySources, bench.drops);
    ghost var s := Run(cfg, steps);
    RunConserves(cfg, steps);
    assert forall id: SourceId :: bench.drops.Get(id) == s.inbox.DropsOf(id) by {
      assert bench.View().inbox.drops == bench.drops.inner;
    }
    forall j | 0 <= j < |stats.sources| && ShredsOnly(s.inbox.produced, stats.sources[j].id)
      ensures RowAddsUp(s, stats.sources[j])
    {
      ShredSourceSplit(s, stats.sources[j].id);
    }
    forall j | 0 <= j < |stats.entrySources| && NoShreds(s.inbox.produced, stats.entrySources[j].id)
      ensures EntryRowAddsUp(s, stats.entrySources[j])
    {
      EntrySourceSplit(s, stats.entrySources[j].id);
    }
  }

  /** Everything produced was delivered: nothing dropped, nothing left queued. */
  ghost predicate Drained(s: State) {
    s.inbox.dropped == [] && s.inbox.shreds == [] && s.inbox.slots == [] && s.inbox.grpc == []
  }

  lemma DrainedTookAll(s: State)
    requires Conserved(s) && Drained(s)
    ensures multiset(s.inbox.taken) == multiset(s.inbox.produced)
  {
  }

  /** Two runs that took the same events report the same counts: for shred
      sources, for entry sources, slots and samples, however producing, taking
      and the three channels were interleaved, if the events are order-free.
      Without a start slot they always are (Aggregator.OrderFreeMeans). */
  lemma InterleavingIrrelevant(cfg: Config, steps: seq<Step>, steps': seq<Step>,
                               stats: Report.BenchmarkStats, stats': Report.BenchmarkStats,
                               shredSources: seq<Named>, entrySources: seq<Named>)
    requires OrderFree(cfg, Taken(cfg, steps)) && multiset(Taken(cfg, steps)) == multiset(Taken(cfg, steps'))
    requires Report.ReportsAll(stats, RecordedBy(cfg, steps), shredSources, entrySources)
    requires Report.ReportsAll(stats', RecordedBy(cfg, steps'), shredSources, entrySources)
    ensures multiset(RecordedBy(cfg, steps)) == multiset(RecordedBy(cfg, steps'))
    ensures Report.SameCounts(stats, stats')
  {
    RecordingIgnoresOrder(cfg, steps);
    Report.ReportIgnoresOrder(stats, RecordedBy(cfg, steps), stats', RecordedBy(cfg, steps'),
                              shredSources, entrySources);
  }

  /** In particular two runs that delivered the same events, with nothing dropped and nothing left queued. */
  lemma DrainedRunsAgree(cfg: Config, steps: seq<Step>, steps': seq<Step>,
                         stats: Report.BenchmarkStats, stats': Report.BenchmarkStats,
                         shredSources: seq<Named>, entrySources: seq<Named>)
    requires OrderFree(cfg, Run(cfg, steps).inbox.produced)
    requires Drained(Run(cfg, steps)) && Drained(Run(cfg, steps'))
    requires multiset(Run(cfg, steps).inbox.produced) == multiset(Run(cfg, steps').inbox.produced)
    requires Report.ReportsAll(stats, RecordedBy(cfg, steps), shredSources, entrySources)
    requires Report.ReportsAll(stats', RecordedBy(cfg, steps'), shredSources, entrySources)
    ensures Report.SameCounts(stats, stats')
  {
    RunConserves(cfg, steps);
    RunConserves(cfg, steps');
    DrainedTookAll(Run(cfg, steps));
    DrainedTookAll(Run(cfg, steps'));
    SameElements(Taken(cfg, steps), Run(cfg, steps).inbox.produced);
    InterleavingIrrelevant(cfg, steps, steps', stats, stats', shredSources, entrySources);
  }

  // ---- Captured frames in a run ----

  function Produces(events: seq<Event>): seq<Step> {
    if events == [] then [] else Produces(Front(events)) + [Produce(Last(events))]
  }

  lemma {:induction false} ProducesRun(cfg: Config, steps: seq<Step>, events: seq<Event>)
    ensures var s := Run(cfg, steps);
            Run(cfg, steps + Produces(events)) == s.(inbox := OfferAll(s.inbox, s.task.running, events))
  {
    if events == [] {
      assert steps + Produces(events) == steps;
    } else {
      ProducesRun(cfg, steps, Front(events));
      var before := steps + Produces(Front(events));
      assert steps + Produces(events) == before + [Produce(Last(events))];
      RunSnoc(cfg, before, Produce(Last(events)));
    }
  }

  lemma FrameShreds(routes: seq<Route>, frame: Buffer, at: Instant)
    ensures forall e | e in FrameEvents(routes, frame, at) :: e.ShredEvent?
  {
    if FrameKey(frame).Some? {
      RoutedShreds(routes, ExtractSrcIp(frame), FrameKey(frame).value, at);
    }
  }

  /** In every run: the produce steps of one captured frame do to the system
      what Capture.CaptureFrame does to the program, and touch nothing but the
      shred channel and the drop counters. The capture holds a sender, so the
      channel is not closed. */
  lemma FrameAsProduces(cfg: Config, steps: seq<Step>, routes: seq<Route>, wire: Buffer, at: Instant)
    requires Shreds !in Run(cfg, steps).inbox.closed
    ensures var events := FrameEvents(routes, Received(wire), at);
            var s, s' := Run(cfg, steps), Run(cfg, steps + Produces(events));
            && s' == s.(inbox := OfferAll(s.inbox, s.task.running, events))
            && Delivered(s.inbox, s.task.running, events, s'.inbox)
  {
    var events := FrameEvents(routes, Received(wire), at);
    ProducesRun(cfg, steps, events);
    FrameShreds(routes, Received(wire), at);
    AllDelivered(Run(cfg, steps).inbox, Run(cfg, steps).task.running, events);
  }

  datatype CapturedFrame = CapturedFrame(wire: Buffer, at: Instant)

  function CapturedEvents(routes: seq<Route>, frames: seq<CapturedFrame>): seq<Event> {
    if frames == [] then []
    else CapturedEvents(routes, Front(frames)) + FrameEvents(routes, Received(Last(frames).wire), Last(frames).at)
  }

  /** Frames that carry a shred and come from an address that the route wants. */
  ghost function ShredFor(route: Route): CapturedFrame -> bool {
    (f: CapturedFrame) =>
      exists ip: nat, key, a: Ipv4Addr ::
        Carries(f.wire, ip, key) && HasSource(f.wire, ip, a) && WantsFrom(a)(route)
  }

  /** The parsers and the routing find exactly those. */
  lemma ShredIsRouted(route: Route, f: CapturedFrame)
    ensures ShredFor(route)(f)
       <==> FrameKey(Received(f.wire)).Some? && RouteMatches(route, ExtractSrcIp(Received(f.wire)))
  {
    var frame := Received(f.wire);
    ReceivedSource(f.wire);
    if FrameKey(frame).Some? {
      PayloadHasSourceIp(frame);
      var a := ExtractSrcIp(frame).value;
      KeyOfFrame(f.wire, FrameKey(frame).value);
      SourceBytes(f.wire, a);
      RouteMatchesExactly(route, Some(a));
    }
    if ip: nat, key, a: Ipv4Addr :| Carries(f.wire, ip, key) && HasSource(f.wire, ip, a) && WantsFrom(a)(route) {
      KeyOfFrame(f.wire, key);
      SourceBytes(f.wire, a);
      RouteMatchesExactly(route, Some(a));
    }
  }

  lemma {:induction false} RoutedOnce(routes: seq<Route>, route: Route, srcIp: Option<Ipv4Addr>, key: ShredKey,
                                      at: Instant)
    requires DistinctSources(routes) && forall r | r in routes :: r.source == route.source ==> r == route
    ensures CountIf(Routed(routes, srcIp, key, at), From(route.source))
            == if route in routes && RouteMatches(route, srcIp) then 1 else 0
  {
    if routes == [] {
    } else {
      assert routes == Front(routes) + [Last(routes)];
      RoutedOnce(Front(routes), route, srcIp, key, at);
      CountIfSnoc(Routed(Front(routes), srcIp, key, at), ShredEvent(Last(routes).source, key, at), From(route.source));
    }
  }

  lemma FrameCounted(routes: seq<Route>, route: Route, f: CapturedFrame)
    requires DistinctSources(routes) && route in routes
    ensures CountIf(FrameEvents(routes, Received(f.wire), f.at), From(route.source))
            == if ShredFor(route)(f) then 1 else 0
  {
    var frame := Received(f.wire);
    ShredIsRouted(route, f);
    if FrameKey(frame).Some? {
      RoutedOnce(routes, route, ExtractSrcIp(frame), FrameKey(frame).value, f.at);
    }
  }

  lemma {:induction false} FramesCounted(routes: seq<Route>, route: Route, frames: seq<CapturedFrame>)
    requires DistinctSources(routes) && route in routes
    ensures CountIf(CapturedEvents(routes, frames), From(route.source)) == CountIf(frames, ShredFor(route))
  {
    if frames == [] {
    } else {
      var f := Last(frames);
      FramesCounted(routes, route, Front(frames));
      CountIfConcat(CapturedEvents(routes, Front(frames)), FrameEvents(routes, Received(f.wire), f.at),
                    From(route.source));
      FrameCounted(routes, route, f);
    }
  }

  lemma {:induction false} CapturedShreds(routes: seq<Route>, frames: seq<CapturedFrame>)
    ensures forall e | e in CapturedEvents(routes, frames) :: e.ShredEvent?
  {
    if frames == [] {
    } else {
      CapturedShreds(routes, Front(frames));
      FrameShreds(routes, Received(Last(frames).wire), Last(frames).at);
    }
  }

  lemma SameCount(xs: seq<Event>, ys: seq<Event>, p: Event -> bool)
    requires multiset(Filter(xs, p)) == multiset(Filter(ys, p))
    ensures CountIf(xs, p) == CountIf(ys, p)
    ensures forall e | e in xs && p(e) :: e in ys
  {
    FilterLength(xs, p);
    FilterLength(ys, p);
    assert |multiset(Filter(xs, p))| == |multiset(Filter(ys, p))|;
    SameElements(Filter(xs, p), Filter(ys, p));
    forall e | e in xs && p(e) ensures e in ys {
      FilterMembers(xs, p, e);
      FilterMembers(ys, p, e);
    }
  }

  /** In every state of every run, for a source whose events all come from
      captured frames: the frames that carried a shred for its route add up to
      received + dupes + discarded + drops + queued. */
  lemma FramesAccountedFor(cfg: Config, steps: seq<Step>, routes: seq<Route>, route: Route, frames: seq<CapturedFrame>,
                           m: map<ShredKey, ShredRecord>, entries: seq<Entry>, st: SourceStats)
    requires DistinctSources(routes) && route in routes
    requires multiset(Filter(Run(cfg, steps).inbox.produced, From(route.source)))
             == multiset(Filter(CapturedEvents(routes, frames), From(route.source)))
    requires ShredsExact(m, Run(cfg, steps).task.history) && Enumerates(entries, m)
    requires Tallies(st, entries, route.source)
    ensures var s := Run(cfg, steps);
            CountIf(frames, ShredFor(route))
            == st.received + st.dupes + CountIf(s.task.discarded, From(route.source)) + s.inbox.DropsOf(route.source)
               + CountIf(s.inbox.shreds, From(route.source))
  {
    FramesCounted(routes, route, frames);
    CapturedShreds(routes, frames);
    SameCount(Run(cfg, steps).inbox.produced, CapturedEvents(routes, frames), From(route.source));
    ProducedAccountedFor(cfg, steps, route.source, m, entries, st);
  }
}
