/** src/main.rs in the form the program has: one object whose handlers update
    its fields in place. Each handler is proved to take exactly the matching
    step of module Aggregator, so that module's theorems are about this object. */
module Bench {
  import opened Registry
  import opened Aggregator

  /** A shred that is neither early nor late is handled alike whether or not it is the first to reach the start slot. */
  lemma ReachedNow(cfg: Config, s: State, e: Event)
    requires e.ShredEvent? && VerdictOn(cfg, s.task.reached, e) != Early
    requires VerdictOn(cfg, s.task.reached, e) != LateStart
    ensures AfterEvent(cfg, s.(task := s.task.(reached := true)), e) == AfterEvent(cfg, s, e)
  {
  }

  // ---- The handlers' effects, as views ----

  function Skipped(s: State, e: Event): State {
    s.(task := s.task.(discarded := s.task.discarded + [e]), monitor := s.monitor.(activity := true),
       trace := s.trace + [Busy])
  }

  function Recorded(s: State, e: Event): State {
    s.(task := s.task.(history := s.task.history + [e]), monitor := s.monitor.(activity := true),
       trace := s.trace + [Busy])
  }

  function Ended(cfg: Config, s: State, e: Event): State {
    var starts := if cfg.RangeMode() && !s.task.rangeEnd then 1 else 0;
    s.(task := s.task.(rangeEnd := s.task.rangeEnd || starts == 1, pendingTimers := s.task.pendingTimers + starts,
                       timersStarted := s.task.timersStarted + starts, discarded := s.task.discarded + [e]),
       trace := s.trace + [Idle])
  }

  lemma EffectOfVerdict(cfg: Config, s: State, e: Event)
    requires !e.GrpcLatencyEvent? && (e.ShredEvent? ==> s.task.reached || SlotOf(e) < cfg.Start())
    ensures AfterEvent(cfg, s, e) ==
            if SlotOf(e) < cfg.Start() then Skipped(s, e)
            else if SlotOf(e) > cfg.End() then Ended(cfg, s, e)
            else if cfg.leaders.Some? && SlotOf(e) !in cfg.leaders.value then Skipped(s, e)
            else Recorded(s, e)
  {
  }

  // ---- The program ----

  class Bench {
    const cfg: Config
    const registry: Registry
    const drops: DropCounters

    // channels
    var shreds: seq<Event>
    var slots: seq<Event>
    var grpc: seq<Event>
    var closed: set<Channel>
    // aggregator task
    var running: bool
    var startSlotChecked: bool
    var rangeEndTriggered: bool
    var pendingTimers: nat
    // silence monitor
    var activity: bool
    var silentSecs: nat
    var watching: bool
    // cancellation token
    var cancelled: bool

    ghost var produced: seq<Event>
    ghost var dropped: seq<Event>
    ghost var accepted: seq<Event>
    ghost var taken: seq<Event>
    ghost var discarded: seq<Event>
    ghost var timersStarted: nat
    ghost var trace: seq<Label>

    ghost predicate Valid()
      reads registry
    {
      registry.Valid()
    }

    ghost function Channels(): Inbox
      reads this, drops
    {
      Inbox(shreds, slots, grpc, closed, drops.inner, produced, dropped, accepted, taken)
    }

    ghost function View(): State
      reads this, registry, drops
    {
      State(Channels(),
            Task(running, startSlotChecked, rangeEndTriggered, pendingTimers, timersStarted,
                 registry.history, discarded),
            Monitor(activity, silentSecs, watching), cancelled, trace)
    }

    constructor (cfg: Config)
      ensures Valid() && View() == INIT && this.cfg == cfg
      ensures fresh(registry) && fresh(drops)
    {
      this.cfg := cfg;
      registry := new Registry();
      drops := new DropCounters();
      shreds, slots, grpc, closed := [], [], [], {};
      running, startSlotChecked, rangeEndTriggered, pendingTimers := true, false, false, 0;
      activity, silentSecs, watching, cancelled := true, 0, true, false;
      produced, dropped, accepted, taken, discarded, timersStarted, trace := [], [], [], [], [], 0, [];
    }

    method Enqueue(e: Event)
      modifies this`shreds, this`slots, this`grpc, this`accepted
      ensures var c := ChannelOf(e);
              Channels() == old(Channels()).WithQueue(c, old(Channels()).Queue(c) + [e])
                            .(accepted := old(accepted) + [e])
    {
      accepted := accepted + [e];
      match ChannelOf(e) {
        case Shreds => shreds := shreds + [e];
        case Slots => slots := slots + [e];
        case Grpc => grpc := grpc + [e];
      }
    }

    /** The bounded queue is full, or nobody receives: count the loss. */
    method Refuse(e: Event)
      modifies this`dropped, drops
      ensures Channels() == old(Channels()).(dropped := old(dropped) + [e],
                                             drops := old(drops.inner)[e.source := old(drops.Get(e.source)) + 1])
    {
      drops.Inc(e.source);
      dropped := dropped + [e];
    }

    method Offer(e: Event)
      modifies this`shreds, this`slots, this`grpc, this`produced, this`dropped, this`accepted, drops
      ensures Channels() == old(Channels()).Offer(running, e)
    {
      var c := ChannelOf(e);
      if c in closed {
        return;
      }
      var length := match c case Shreds => |shreds| case Slots => |slots| case Grpc => |grpc|;
      produced := produced + [e];
      if !running || length >= Capacity(c) {
        Refuse(e);
      } else {
        Enqueue(e);
      }
    }

    /** A source hands over one event. */
    method TrySend(e: Event)
      modifies this`shreds, this`slots, this`grpc, this`produced, this`dropped, this`accepted, drops
      ensures View() == AfterStep(cfg, old(View()), Produce(e))
    {
      Offer(e);
    }

    method DropSenders(c: Channel)
      modifies this`closed
      ensures View() == AfterStep(cfg, old(View()), Close(c))
    {
      closed := closed + {c};
    }

    method OnGrpc(event: Event)
      requires Valid() && event.GrpcLatencyEvent?
      modifies this`trace, registry
      ensures Valid() && View() == AfterEvent(cfg, old(View()), event)
    {
      trace := trace + [Idle];
      registry.RecordGrpcLatency(event);
    }

    method ServeGrpc()
      requires Valid() && View().inbox.ChannelInOrder(Grpc)
      modifies this, registry
      ensures Valid() && View() == AfterStep(cfg, old(View()), Take(Grpc))
    {
      if !running {
        return;
      }
      if grpc == [] {
        running := Grpc !in closed;
        return;
      }
      var event := grpc[0];
      assert ChannelOf(event) == Grpc by { assert event in View().inbox.Queue(Grpc); }
      grpc, taken := grpc[1..], taken + [event];
      assert View() == old(View()).(inbox := old(View()).inbox.Pop(Grpc));
      OnGrpc(event);
    }

    /** An event in scope: record it. */
    method Keep(event: Event)
      requires Valid() && !event.GrpcLatencyEvent?
      modifies this`activity, this`trace, registry
      ensures Valid() && registry.history == old(registry.history) + [event]
      ensures activity && trace == old(trace) + [Busy]
      ensures View() == Recorded(old(View()), event)
    {
      activity := true;
      trace := trace + [Busy];
      if event.ShredEvent? {
        registry.RecordShred(event);
      } else {
        registry.RecordSlotEvent(event);
      }
    }

    ghost method Discard(event: Event, mark: Label)
      modifies this`discarded, this`trace
      ensures discarded == old(discarded) + [event] && trace == old(trace) + [mark]
    {
      discarded, trace := discarded + [event], trace + [mark];
    }

    /** An event past the end slot: start the one grace timer, keep nothing. */
    method BeyondEnd(event: Event)
      modifies this`rangeEndTriggered, this`pendingTimers, this`timersStarted, this`discarded, this`trace
      ensures var starts := cfg.RangeMode() && !old(rangeEndTriggered);
              && rangeEndTriggered == (old(rangeEndTriggered) || starts)
              && pendingTimers == old(pendingTimers) + (if starts then 1 else 0)
              && timersStarted == old(timersStarted) + (if starts then 1 else 0)
      ensures discarded == old(discarded) + [event] && trace == old(trace) + [Idle]
      ensures View() == Ended(cfg, old(View()), event)
    {
      if cfg.RangeMode() && !rangeEndTriggered {
        rangeEndTriggered := true;
        pendingTimers, timersStarted := pendingTimers + 1, timersStarted + 1;
      }
      Discard(event, Idle);
    }

    /** An event before the start slot or of another leader: keep the silence timer quiet, keep nothing. */
    method Skip(event: Event)
      modifies this`activity, this`discarded, this`trace
      ensures activity && discarded == old(discarded) + [event] && trace == old(trace) + [Busy]
      ensures View() == Skipped(old(View()), event)
    {
      activity := true;
      Discard(event, Busy);
    }

    /** A shred at or after the start slot, which was not found missed. */
    method OnReachedShred(event: Event)
      requires Valid() && event.ShredEvent? && startSlotChecked && event.key.slot >= cfg.Start()
      modifies this`rangeEndTriggered, this`pendingTimers, this`timersStarted,
               this`activity, this`discarded, this`trace, registry
      ensures Valid() && View() == AfterEvent(cfg, old(View()), event)
    {
      EffectOfVerdict(cfg, View(), event);
      var slot := event.key.slot;
      if slot > cfg.End() {
        BeyondEnd(event);
        return;
      }
      if cfg.leaders.Some? {
        if slot !in cfg.leaders.value {
          Skip(event);
          return;
        }
      }
      Keep(event);
    }

    method OnShred(event: Event)
      requires Valid() && event.ShredEvent?
      modifies this`startSlotChecked, this`rangeEndTriggered, this`pendingTimers, this`timersStarted,
               this`activity, this`cancelled, this`discarded, this`trace, registry
      ensures Valid() && View() == AfterEvent(cfg, old(View()), event)
    {
      var slot := event.key.slot;
      if slot < cfg.Start() {
        EffectOfVerdict(cfg, View(), event);
        Skip(event);
        return;
      }
      if !startSlotChecked && cfg.startSlot.Some? && slot > cfg.Start() {
        startSlotChecked := true;
        cancelled := true;
        Discard(event, Idle);
        return;
      }
      ReachedNow(cfg, View(), event);
      startSlotChecked := true;
      OnReachedShred(event);
    }

    method ServeShreds()
      requires Valid() && View().inbox.ChannelInOrder(Shreds)
      modifies this, registry
      ensures Valid() && View() == AfterStep(cfg, old(View()), Take(Shreds))
    {
      if !running {
        return;
      }
      if shreds == [] {
        running := Shreds !in closed;
        return;
      }
      var event := shreds[0];
      assert ChannelOf(event) == Shreds by { assert event in View().inbox.Queue(Shreds); }
      shreds, taken := shreds[1..], taken + [event];
      assert View() == old(View()).(inbox := old(View()).inbox.Pop(Shreds));
      OnShred(event);
    }

    method OnSlot(event: Event)
      requires Valid() && event.SlotEvent?
      modifies this`startSlotChecked, this`rangeEndTriggered, this`pendingTimers, this`timersStarted,
               this`activity, this`cancelled, this`discarded, this`trace, registry
      ensures Valid() && View() == AfterEvent(cfg, old(View()), event)
    {
      EffectOfVerdict(cfg, View(), event);
      var slot := event.slot;
      if slot < cfg.Start() {
        Skip(event);
        return;
      }
      if slot > cfg.End() {
        BeyondEnd(event);
        return;
      }
      if cfg.leaders.Some? {
        if slot !in cfg.leaders.value {
          Skip(event);
          return;
        }
      }
      Keep(event);
    }

    method ServeSlots()
      requires Valid() && View().inbox.ChannelInOrder(Slots)
      modifies this, registry
      ensures Valid() && View() == AfterStep(cfg, old(View()), Take(Slots))
    {
      if !running {
        return;
      }
      if slots == [] {
        running := Slots !in closed;
        return;
      }
      var event := slots[0];
      assert ChannelOf(event) == Slots by { assert event in View().inbox.Queue(Slots); }
      slots, taken := slots[1..], taken + [event];
      assert View() == old(View()).(inbox := old(View()).inbox.Pop(Slots));
      OnSlot(event);
    }

    method CountSecond()
      requires watching && !cancelled
      modifies this`activity, this`silentSecs, this`watching, this`cancelled
      ensures Monitor(activity, silentSecs, watching)
              == old(Monitor(activity, silentSecs, watching)).Second(cfg.silenceTimeout)
      ensures cancelled == !watching
    {
      var wasActive := activity;
      activity := false;
      if !wasActive {
        silentSecs := silentSecs + 1;
        if silentSecs >= cfg.silenceTimeout {
          cancelled := true;
          watching := false;
        }
      } else {
        silentSecs := 0;
      }
    }

    /** One turn of the silence monitor's loop. */
    method SilenceTick()
      modifies this`activity, this`silentSecs, this`watching, this`cancelled, this`trace
      ensures View() == AfterStep(cfg, old(View()), Tick)
    {
      if !watching {
        return;
      }
      if cancelled {
        watching := false;
        return;
      }
      trace := trace + [Label.Second];
      CountSecond();
    }

    method GraceTimerFires()
      modifies this`pendingTimers, this`cancelled, this`trace
      ensures View() == AfterStep(cfg, old(View()), GraceExpiry)
    {
      if pendingTimers > 0 {
        pendingTimers := pendingTimers - 1;
        cancelled := true;
        trace := trace + [GraceOver];
      }
    }

    method StopRun()
      modifies this`cancelled, this`trace
      ensures View() == AfterStep(cfg, old(View()), Stop)
    {
      cancelled := true;
      trace := trace + [Stopped];
    }

    method Serve(c: Channel)
      requires Valid() && View().inbox.ChannelInOrder(c)
      modifies this, registry
      ensures Valid() && View() == AfterStep(cfg, old(View()), Take(c))
    {
      match c {
        case Shreds => ServeShreds();
        case Slots => ServeSlots();
        case Grpc => ServeGrpc();
      }
    }

    method Advance(step: Step)
      requires Valid() && View().inbox.InOrder()
      modifies this, registry, drops
      ensures Valid() && View() == AfterStep(cfg, old(View()), step)
    {
      match step {
        case Produce(e) => TrySend(e);
        case Close(c) => DropSenders(c);
        case Take(c) => Serve(c);
        case Tick => SilenceTick();
        case GraceExpiry => GraceTimerFires();
        case Stop => StopRun();
      }
    }
  }

  /** Any run of the program, from its start: the object ends in the state the
      transition system reaches, with a registry that indexes exactly the
      events recorded on the way. */
  method RunBench(cfg: Config, steps: seq<Step>) returns (bench: Bench)
    ensures bench.cfg == cfg && bench.Valid() && bench.View() == Run(cfg, steps)
    ensures bench.registry.history == Run(cfg, steps).task.history
  {
    bench := new Bench(cfg);
    for i := 0 to |steps|
      invariant fresh(bench) && fresh(bench.registry) && fresh(bench.drops)
      invariant bench.cfg == cfg && bench.Valid() && bench.View() == Run(cfg, steps[..i])
    {
      assert steps[..i + 1] == steps[..i] + [steps[i]];
      RunSnoc(cfg, steps[..i], steps[i]);
      RunConserves(cfg, steps[..i]);
      bench.Advance(steps[i]);
    }
    assert steps[..|steps|] == steps;
  }
}
