/** src/main.rs as a transition system: bounded channels, the event aggregator,
    the silence monitor, grace timers and cancellation. A run is any sequence
    of steps; every theorem is about the state that any run reaches. */
module Aggregator {
  import opened Bytes
  import opened Sequences
  import opened Registry

  datatype Config = Config(startSlot: Option<u64>, endSlot: Option<u64>, leaders: Option<set<u64>>,
                           silenceTimeout: u64) {
    function Start(): u64 {
      startSlot.GetOr(0)
    }

    function End(): u64 {
      endSlot.GetOr(U64_MAX)
    }

    predicate RangeMode() {
      startSlot.Some? || endSlot.Some?
    }

    // What the fields mean, apart from the defaults that the program fills in.

    predicate Begun(slot: u64) {
      startSlot.Some? ==> startSlot.value <= slot
    }

    predicate PastStart(slot: u64) {
      startSlot.Some? && startSlot.value < slot
    }

    predicate Over(slot: u64) {
      endSlot.Some? && endSlot.value < slot
    }

    predicate OfLeader(slot: u64) {
      leaders.Some? ==> slot in leaders.value
    }

    /** In the configured range, both ends included, and of a wanted leader. */
    predicate Wants(slot: u64) {
      Begun(slot) && !Over(slot) && OfLeader(slot)
    }
  }

  datatype Channel = Shreds | Slots | Grpc

  function ChannelOf(e: Event): Channel {
    match e
    case ShredEvent(_, _, _) => Shreds
    case SlotEvent(_, _, _) => Slots
    case GrpcLatencyEvent(_, _) => Grpc
  }

  function Capacity(c: Channel): nat {
    if c == Shreds then 65536 else 4096
  }

  function On(c: Channel): Event -> bool {
    (e: Event) => ChannelOf(e) == c
  }

  // ---- What the aggregator decides about one event ----

  datatype Verdict = Early | LateStart | BeyondEnd | OtherLeader | Record

  function RangeVerdict(cfg: Config, slot: u64): Verdict {
    if slot > cfg.End() then BeyondEnd
    else if cfg.leaders.Some? && slot !in cfg.leaders.value then OtherLeader
    else Record
  }

  /** `reached` says whether a shred at or after the start slot was seen before. */
  function VerdictOn(cfg: Config, reached: bool, e: Event): Verdict {
    match e
    case GrpcLatencyEvent(_, _) => Record
    case SlotEvent(_, slot, _) => if slot < cfg.Start() then Early else RangeVerdict(cfg, slot)
    case ShredEvent(_, key, _) =>
      if key.slot < cfg.Start() then Early
      else if !reached && cfg.startSlot.Some? && key.slot > cfg.Start() then LateStart
      else RangeVerdict(cfg, key.slot)
  }

  /** Whether taking the event keeps the silence monitor quiet. */
  predicate SetsActivity(e: Event, v: Verdict) {
    !e.GrpcLatencyEvent? && (v == Early || v == OtherLeader || v == Record)
  }

  // ---- The channels ----

  /** `closed` are the channels without a sender left; the last four fields
      remember what was offered, refused, accepted and taken. */
  datatype Inbox = Inbox(shreds: seq<Event>, slots: seq<Event>, grpc: seq<Event>, closed: set<Channel>,
                         drops: map<SourceId, nat>, produced: seq<Event>, dropped: seq<Event>,
                         accepted: seq<Event>, taken: seq<Event>)
  {
    function Queue(c: Channel): seq<Event> {
      match c
      case Shreds => shreds
      case Slots => slots
      case Grpc => grpc
    }

    function WithQueue(c: Channel, q: seq<Event>): Inbox {
      match c
      case Shreds => this.(shreds := q)
      case Slots => this.(slots := q)
      case Grpc => this.(grpc := q)
    }

    function DropsOf(id: SourceId): nat {
      if id in drops then drops[id] else 0
    }

    /** try_send, and the drop counter when it fails. */
    function Offer(receiving: bool, e: Event): Inbox {
      var c := ChannelOf(e);
      if c in closed then this
      else if !receiving || |Queue(c)| >= Capacity(c) then
        this.(produced := produced + [e], dropped := dropped + [e], drops := drops[e.source := DropsOf(e.source) + 1])
      else WithQueue(c, Queue(c) + [e]).(produced := produced + [e], accepted := accepted + [e])
    }

    function Pop(c: Channel): Inbox
      requires Queue(c) != []
    {
      WithQueue(c, Queue(c)[1..]).(taken := taken + [Queue(c)[0]])
    }

    ghost function Queued(): multiset<Event> {
      multiset(shreds) + multiset(slots) + multiset(grpc)
    }

    /** Every event produced was taken, dropped, or is still queued. */
    ghost predicate Balanced() {
      multiset(produced) == multiset(taken) + multiset(dropped) + Queued()
    }

    ghost predicate QueueInOrder(c: Channel) {
      |Queue(c)| <= Capacity(c) && forall e | e in Queue(c) :: ChannelOf(e) == c
    }

    /** The drop counters count exactly the dropped events, source by source. */
    ghost predicate DropsExact() {
      forall id: SourceId :: DropsOf(id) == CountIf(dropped, From(id))
    }

    /** A channel delivers what it accepted, in that order. */
    ghost predicate FirstInFirstOut(c: Channel) {
      Filter(accepted, On(c)) == Filter(taken, On(c)) + Queue(c)
    }

    ghost predicate ChannelInOrder(c: Channel) {
      QueueInOrder(c) && FirstInFirstOut(c)
    }

    ghost predicate InOrder() {
      Balanced() && ChannelInOrder(Shreds) && ChannelInOrder(Slots) && ChannelInOrder(Grpc) && DropsExact()
    }
  }

  const EMPTY_INBOX: Inbox := Inbox([], [], [], {}, map[], [], [], [], [])

  lemma QueueReplaced(b: Inbox, c: Channel, q: seq<Event>)
    ensures var b' := b.WithQueue(c, q);
            && b'.Queued() + multiset(b.Queue(c)) == b.Queued() + multiset(q)
            && b' == b.(shreds := b'.shreds, slots := b'.slots, grpc := b'.grpc)
            && b'.Queue(c) == q && forall d | d != c :: b'.Queue(d) == b.Queue(d)
  {
  }

  lemma OfferKeepsBalance(b: Inbox, receiving: bool, e: Event)
    requires b.Balanced()
    ensures b.Offer(receiving, e).Balanced()
  {
  }

  lemma OfferKeepsQueues(b: Inbox, receiving: bool, e: Event, d: Channel)
    requires b.QueueInOrder(d)
    ensures b.Offer(receiving, e).QueueInOrder(d)
  {
  }

  /** What an offer does to the events on the way. */
  lemma OfferEffect(b: Inbox, receiving: bool, e: Event, d: Channel)
    ensures var b', c := b.Offer(receiving, e), ChannelOf(e);
            var accepts := c !in b.closed && receiving && |b.Queue(c)| < Capacity(c);
            && b'.taken == b.taken
            && b'.accepted == (if accepts then b.accepted + [e] else b.accepted)
            && b'.Queue(d) == (if accepts && d == c then b.Queue(d) + [e] else b.Queue(d))
  {
    QueueReplaced(b, ChannelOf(e), b.Queue(ChannelOf(e)) + [e]);
  }

  lemma ArrivesLast(accepted: seq<Event>, taken: seq<Event>, queue: seq<Event>, e: Event, d: Channel)
    requires Filter(accepted, On(d)) == taken + queue
    ensures Filter(accepted + [e], On(d)) == taken + if ChannelOf(e) == d then queue + [e] else queue
  {
    FilterSnoc(accepted, e, On(d));
  }

  lemma OfferKeepsOrder(b: Inbox, receiving: bool, e: Event, d: Channel)
    requires b.FirstInFirstOut(d)
    ensures b.Offer(receiving, e).FirstInFirstOut(d)
  {
    OfferEffect(b, receiving, e, d);
    ArrivesLast(b.accepted, Filter(b.taken, On(d)), b.Queue(d), e, d);
  }

  lemma OfferKeepsChannel(b: Inbox, receiving: bool, e: Event, d: Channel)
    requires b.ChannelInOrder(d)
    ensures b.Offer(receiving, e).ChannelInOrder(d)
  {
    OfferKeepsQueues(b, receiving, e, d);
    OfferKeepsOrder(b, receiving, e, d);
  }

  lemma OfferCountsDrops(b: Inbox, receiving: bool, e: Event)
    requires b.DropsExact()
    ensures b.Offer(receiving, e).DropsExact()
  {
  }

  lemma OfferKeeps(b: Inbox, receiving: bool, e: Event)
    requires b.InOrder()
    ensures b.Offer(receiving, e).InOrder()
  {
    OfferKeepsBalance(b, receiving, e);
    OfferKeepsChannel(b, receiving, e, Shreds);
    OfferKeepsChannel(b, receiving, e, Slots);
    OfferKeepsChannel(b, receiving, e, Grpc);
    OfferCountsDrops(b, receiving, e);
  }

  lemma SameDrops(b: Inbox, b': Inbox)
    requires b.DropsExact() && b'.drops == b.drops && b'.dropped == b.dropped
    ensures b'.DropsExact()
  {
  }

  lemma TailBag(q: seq<Event>)
    requires q != []
    ensures multiset(q) == multiset{q[0]} + multiset(q[1..])
  {
    assert q == [q[0]] + q[1..];
  }

  lemma PopKeepsBalance(b: Inbox, c: Channel)
    requires b.Balanced() && b.Queue(c) != []
    ensures b.Pop(c).Balanced()
  {
    QueueReplaced(b, c, b.Queue(c)[1..]);
    TailBag(b.Queue(c));
  }

  lemma PopKeepsQueues(b: Inbox, c: Channel, d: Channel)
    requires b.QueueInOrder(d) && b.Queue(c) != []
    ensures b.Pop(c).QueueInOrder(d)
  {
  }

  lemma HeadMoves(xs: seq<Event>, q: seq<Event>)
    requires q != []
    ensures (xs + [q[0]]) + q[1..] == xs + q
  {
  }

  lemma PopKeepsOrder(b: Inbox, c: Channel, d: Channel)
    requires b.QueueInOrder(c) && b.FirstInFirstOut(d) && b.Queue(c) != []
    ensures b.Pop(c).FirstInFirstOut(d)
  {
    var q := b.Queue(c);
    QueueReplaced(b, c, q[1..]);
    assert q[0] in q;
    FilterSnoc(b.taken, q[0], On(d));
    if d == c {
      HeadMoves(Filter(b.taken, On(d)), q);
    }
  }

  lemma PopKeepsChannel(b: Inbox, c: Channel, d: Channel)
    requires b.ChannelInOrder(c) && b.ChannelInOrder(d) && b.Queue(c) != []
    ensures b.Pop(c).ChannelInOrder(d)
  {
    PopKeepsQueues(b, c, d);
    PopKeepsOrder(b, c, d);
  }

  lemma PopKeeps(b: Inbox, c: Channel)
    requires b.InOrder() && b.Queue(c) != []
    ensures b.Pop(c).InOrder()
    ensures b.Pop(c).taken == b.taken + [b.Queue(c)[0]]
  {
    PopKeepsBalance(b, c);
    PopKeepsChannel(b, c, Shreds);
    PopKeepsChannel(b, c, Slots);
    PopKeepsChannel(b, c, Grpc);
    QueueReplaced(b, c, b.Queue(c)[1..]);
    SameDrops(b, b.Pop(c));
  }

  lemma CloseKeeps(b: Inbox, c: Channel)
    requires b.InOrder()
    ensures b.(closed := b.closed + {c}).InOrder()
  {
  }

  // ---- The aggregator task ----

  datatype Task = Task(running: bool, reached: bool, rangeEnd: bool, pendingTimers: nat, timersStarted: nat,
                       history: seq<Event>, discarded: seq<Event>)
  {
    function StartsTimer(cfg: Config, e: Event): bool {
      VerdictOn(cfg, reached, e) == BeyondEnd && cfg.RangeMode() && !rangeEnd
    }

    function Absorb(cfg: Config, e: Event): Task {
      var v := VerdictOn(cfg, reached, e);
      var timer := StartsTimer(cfg, e);
      this.(history := if v == Record then history + [e] else history,
            discarded := if v == Record then discarded else discarded + [e],
            reached := reached || (e.ShredEvent? && v != Early),
            rangeEnd := rangeEnd || timer,
            pendingTimers := pendingTimers + if timer then 1 else 0,
            timersStarted := timersStarted + if timer then 1 else 0)
    }
  }

  const FRESH_TASK: Task := Task(true, false, false, 0, 0, [], [])

  // ---- The silence monitor ----

  datatype Monitor = Monitor(activity: bool, silentSecs: nat, watching: bool) {
    /** One second later, when the run is not cancelled. */
    function Second(timeout: u64): Monitor {
      if activity then Monitor(false, 0, watching)
      else Monitor(false, silentSecs + 1, silentSecs + 1 < timeout)
    }
  }

  const FRESH_MONITOR: Monitor := Monitor(true, 0, true)

  // ---- States and steps ----

  datatype Label = Busy | Idle | Second | GraceOver | Stopped

  /** `trace` remembers what happened, one label an event. */
  datatype State = State(inbox: Inbox, task: Task, monitor: Monitor, cancelled: bool, trace: seq<Label>)

  const INIT: State := State(EMPTY_INBOX, FRESH_TASK, FRESH_MONITOR, false, [])

  datatype Step =
    | Produce(e: Event)        // a source offers an event with try_send
    | Close(channel: Channel)  // the last sender of a channel is dropped
    | Take(channel: Channel)   // select! is served by this channel
    | Tick                     // a second passes for the silence monitor
    | GraceExpiry              // a grace timer fires
    | Stop                     // the duration ends, or Ctrl+C

  function LabelOf(e: Event, v: Verdict): Label {
    if SetsActivity(e, v) then Busy else Idle
  }

  function AfterEvent(cfg: Config, s: State, e: Event): State {
    var v := VerdictOn(cfg, s.task.reached, e);
    s.(task := s.task.Absorb(cfg, e),
       monitor := s.monitor.(activity := s.monitor.activity || SetsActivity(e, v)),
       cancelled := s.cancelled || v == LateStart,
       trace := s.trace + [LabelOf(e, v)])
  }

  /** On an empty closed channel the aggregator ends; on an empty open one it waits. */
  function AfterTake(cfg: Config, s: State, c: Channel): State {
    if !s.task.running then s
    else if s.inbox.Queue(c) == [] then s.(task := s.task.(running := c !in s.inbox.closed))
    else AfterEvent(cfg, s.(inbox := s.inbox.Pop(c)), s.inbox.Queue(c)[0])
  }

  function AfterTick(cfg: Config, s: State): State {
    if !s.monitor.watching then s
    else if s.cancelled then s.(monitor := s.monitor.(watching := false))
    else
      var monitor := s.monitor.Second(cfg.silenceTimeout);
      s.(monitor := monitor, cancelled := !monitor.watching, trace := s.trace + [Label.Second])
  }

  function AfterStep(cfg: Config, s: State, step: Step): State {
    match step
    case Produce(e) => s.(inbox := s.inbox.Offer(s.task.running, e))
    case Close(c) => s.(inbox := s.inbox.(closed := s.inbox.closed + {c}))
    case Take(c) => AfterTake(cfg, s, c)
    case Tick => AfterTick(cfg, s)
    case GraceExpiry =>
      if s.task.pendingTimers == 0 then s
      else s.(task := s.task.(pendingTimers := s.task.pendingTimers - 1), cancelled := true,
              trace := s.trace + [GraceOver])
    case Stop => s.(cancelled := true, trace := s.trace + [Stopped])
  }

  function Run(cfg: Config, steps: seq<Step>): State {
    if steps == [] then INIT else AfterStep(cfg, Run(cfg, Front(steps)), Last(steps))
  }

  lemma RunSnoc(cfg: Config, steps: seq<Step>, step: Step)
    ensures Run(cfg, steps + [step]) == AfterStep(cfg, Run(cfg, steps), step)
    ensures Run(cfg, steps).cancelled ==> Run(cfg, steps + [step]).cancelled
  {
    Snoc(steps, step);
  }

  // ---- Conservation ----

  /** Every event produced was recorded, discarded by a guard, dropped, or is
      still queued; no channel exceeds its capacity; the drop counters are exact. */
  ghost predicate Conserved(s: State) {
    && s.inbox.InOrder()
    && multiset(s.inbox.taken) == multiset(s.task.history) + multiset(s.task.discarded)
  }

  lemma TakeConserves(cfg: Config, s: State, c: Channel)
    requires Conserved(s)
    ensures Conserved(AfterTake(cfg, s, c))
  {
    if s.task.running && s.inbox.Queue(c) != [] {
      PopKeeps(s.inbox, c);
    }
  }

  lemma OfferTakesNothing(b: Inbox, receiving: bool, e: Event)
    ensures b.Offer(receiving, e).taken == b.taken
  {
  }

  lemma ProduceConserves(cfg: Config, s: State, e: Event)
    requires Conserved(s)
    ensures Conserved(AfterStep(cfg, s, Produce(e)))
  {
    OfferKeeps(s.inbox, s.task.running, e);
    OfferTakesNothing(s.inbox, s.task.running, e);
  }

  lemma SameEvents(s: State, s': State)
    requires Conserved(s) && s'.inbox == s.inbox
    requires s'.task.history == s.task.history && s'.task.discarded == s.task.discarded
    ensures Conserved(s')
  {
  }

  lemma CloseConserves(cfg: Config, s: State, c: Channel)
    requires Conserved(s)
    ensures Conserved(AfterStep(cfg, s, Close(c)))
  {
    CloseKeeps(s.inbox, c);
  }

  lemma QuietConserves(cfg: Config, s: State, step: Step)
    requires Conserved(s) && (step.Tick? || step.GraceExpiry? || step.Stop?)
    ensures Conserved(AfterStep(cfg, s, step))
  {
    SameEvents(s, AfterStep(cfg, s, step));
  }

  lemma StepConserves(cfg: Config, s: State, step: Step)
    requires Conserved(s)
    ensures Conserved(AfterStep(cfg, s, step))
  {
    match step
    case Produce(e) => ProduceConserves(cfg, s, e);
    case Take(c) => TakeConserves(cfg, s, c);
    case Close(c) => CloseConserves(cfg, s, c);
    case _ => QuietConserves(cfg, s, step);
  }

  lemma {:induction false} RunConserves(cfg: Config, steps: seq<Step>)
    ensures Conserved(Run(cfg, steps))
  {
    if steps == [] {
    } else {
      RunConserves(cfg, Front(steps));
      StepConserves(cfg, Run(cfg, Front(steps)), Last(steps));
    }
  }

  /** In every run, an event offered on an open channel goes to the end of the
      queue exactly if the aggregator runs and its channel holds fewer than
      65,536 shreds, or 4,096 slot events, or 4,096 samples; else it is dropped. */
  lemma OfferedExactly(cfg: Config, steps: seq<Step>, e: Event)
    requires ChannelOf(e) !in Run(cfg, steps).inbox.closed
    ensures var b, b' := Run(cfg, steps).inbox, Run(cfg, steps + [Produce(e)]).inbox;
            var fits := Run(cfg, steps).task.running
                        && (e.ShredEvent? ==> |b.shreds| < 65536)
                        && (e.SlotEvent? ==> |b.slots| < 4096)
                        && (e.GrpcLatencyEvent? ==> |b.grpc| < 4096);
            && b'.shreds == (if fits && e.ShredEvent? then b.shreds + [e] else b.shreds)
            && b'.slots == (if fits && e.SlotEvent? then b.slots + [e] else b.slots)
            && b'.grpc == (if fits && e.GrpcLatencyEvent? then b.grpc + [e] else b.grpc)
            && b'.dropped == (if fits then b.dropped else b.dropped + [e])
  {
    RunSnoc(cfg, steps, Produce(e));
  }

  // ---- Exactly which events are recorded ----

  function InScope(cfg: Config): Event -> bool {
    (e: Event) => e.GrpcLatencyEvent? || cfg.Wants(SlotOf(e))
  }

  predicate Reaches(cfg: Config, e: Event) {
    e.ShredEvent? && cfg.Begun(e.key.slot)
  }

  /** The index of the first shred taken that is at or after the start slot. */
  function FirstReached(cfg: Config, taken: seq<Event>): (i: Option<nat>)
    ensures i.Some? ==> i.value < |taken| && Reaches(cfg, taken[i.value])
  {
    if taken == [] then None
    else
      var before := FirstReached(cfg, Front(taken));
      if before.Some? then before else if Reaches(cfg, Last(taken)) then Some(|taken| - 1) else None
  }

  /** No shred before it reaches the start slot; without it, none at all does. */
  lemma {:induction false} FirstReachedIsFirst(cfg: Config, taken: seq<Event>)
    ensures var i := FirstReached(cfg, taken).GetOr(|taken|);
            i <= |taken| && forall j | 0 <= j < i :: !Reaches(cfg, taken[j])
  {
    if taken == [] {
    } else {
      FirstReachedIsFirst(cfg, Front(taken));
    }
  }

  /** A start slot is configured and the first shred to reach it is already past it. */
  predicate MissedStart(cfg: Config, taken: seq<Event>) {
    var i := FirstReached(cfg, taken);
    i.Some? && cfg.PastStart(taken[i.value].key.slot)
  }

  function Without(taken: seq<Event>, i: nat): seq<Event>
    requires i < |taken|
  {
    taken[..i] + taken[i + 1..]
  }

  lemma WithoutSnoc(taken: seq<Event>, e: Event, i: nat)
    requires i <= |taken|
    ensures Without(taken + [e], i) == if i < |taken| then Without(taken, i) + [e] else taken
  {
  }

  /** What the handlers act on: everything taken, except the one shred that
      revealed a missed start, which only cancels the run. */
  function Heeded(cfg: Config, taken: seq<Event>): seq<Event> {
    if MissedStart(cfg, taken) then Without(taken, FirstReached(cfg, taken).value) else taken
  }

  /** What should be recorded: whatever is heeded and in scope. */
  function Kept(cfg: Config, taken: seq<Event>): seq<Event> {
    Filter(Heeded(cfg, taken), InScope(cfg))
  }

  ghost predicate Faithful(cfg: Config, s: State) {
    && s.task.history == Kept(cfg, s.inbox.taken)
    && (s.task.reached <==> FirstReached(cfg, s.inbox.taken).Some?)
  }

  lemma FirstReachedSnoc(cfg: Config, taken: seq<Event>, e: Event)
    ensures FirstReached(cfg, taken + [e])
            == if FirstReached(cfg, taken).Some? then FirstReached(cfg, taken)
               else if Reaches(cfg, e) then Some(|taken|) else None
  {
  }

  /** One more taken event reveals a missed start if it is the first to reach the start slot, and past it. */
  lemma MissedStartSnoc(cfg: Config, taken: seq<Event>, e: Event)
    ensures MissedStart(cfg, taken + [e])
       <==> || MissedStart(cfg, taken)
            || (FirstReached(cfg, taken).None? && e.ShredEvent? && cfg.PastStart(e.key.slot))
  {
    FirstReachedSnoc(cfg, taken, e);
    var i := FirstReached(cfg, taken);
    assert i.Some? ==> (taken + [e])[i.value] == taken[i.value];
    assert (taken + [e])[|taken|] == e;
  }

  lemma VerdictIsScope(cfg: Config, reached: bool, e: Event)
    requires VerdictOn(cfg, reached, e) != LateStart
    ensures VerdictOn(cfg, reached, e) == Record <==> InScope(cfg)(e)
  {
  }

  /** One more taken event is heeded unless it reveals a missed start. */
  lemma HeededSnoc(cfg: Config, taken: seq<Event>, e: Event)
    ensures Heeded(cfg, taken + [e])
            == if VerdictOn(cfg, FirstReached(cfg, taken).Some?, e) == LateStart then Heeded(cfg, taken)
               else Heeded(cfg, taken) + [e]
  {
    FirstReachedSnoc(cfg, taken, e);
    MissedStartSnoc(cfg, taken, e);
    if MissedStart(cfg, taken + [e]) {
      WithoutSnoc(taken, e, FirstReached(cfg, taken + [e]).value);
    }
  }

  /** How one more taken event changes what should be recorded. */
  lemma KeptSnoc(cfg: Config, taken: seq<Event>, e: Event)
    ensures Kept(cfg, taken + [e])
            == if VerdictOn(cfg, FirstReached(cfg, taken).Some?, e) == Record then Kept(cfg, taken) + [e]
               else Kept(cfg, taken)
  {
    var reached := FirstReached(cfg, taken).Some?;
    HeededSnoc(cfg, taken, e);
    FilterSnoc(Heeded(cfg, taken), e, InScope(cfg));
    if VerdictOn(cfg, reached, e) != LateStart {
      VerdictIsScope(cfg, reached, e);
    }
  }

  lemma VerdictReaches(cfg: Config, reached: bool, e: Event)
    ensures e.ShredEvent? && VerdictOn(cfg, reached, e) != Early <==> Reaches(cfg, e)
    ensures VerdictOn(cfg, reached, e) == LateStart
       <==> !reached && e.ShredEvent? && cfg.PastStart(e.key.slot)
  {
  }

  lemma ReachedSnoc(cfg: Config, taken: seq<Event>, e: Event)
    ensures var v := VerdictOn(cfg, FirstReached(cfg, taken).Some?, e);
            && (FirstReached(cfg, taken + [e]).Some?
                <==> FirstReached(cfg, taken).Some? || (e.ShredEvent? && v != Early))
            && (MissedStart(cfg, taken + [e]) <==> MissedStart(cfg, taken) || v == LateStart)
  {
    VerdictReaches(cfg, FirstReached(cfg, taken).Some?, e);
    FirstReachedSnoc(cfg, taken, e);
    MissedStartSnoc(cfg, taken, e);
  }

  lemma StepFaithful(cfg: Config, s: State, step: Step)
    requires Faithful(cfg, s)
    ensures Faithful(cfg, AfterStep(cfg, s, step))
  {
    match step
    case Produce(e) => OfferTakesNothing(s.inbox, s.task.running, e);
    case Take(c) =>
      if s.task.running && s.inbox.Queue(c) != [] {
        QueueReplaced(s.inbox, c, s.inbox.Queue(c)[1..]);
        KeptSnoc(cfg, s.inbox.taken, s.inbox.Queue(c)[0]);
        ReachedSnoc(cfg, s.inbox.taken, s.inbox.Queue(c)[0]);
      }
    case _ =>
  }

  lemma {:induction false} RunFaithful(cfg: Config, steps: seq<Step>)
    ensures Faithful(cfg, Run(cfg, steps))
  {
    if steps == [] {
    } else {
      RunFaithful(cfg, Front(steps));
      StepFaithful(cfg, Run(cfg, Front(steps)), Last(steps));
    }
  }

  /** Nothing out of range or of another leader is ever recorded. */
  lemma RecordedInScope(cfg: Config, steps: seq<Step>)
    ensures forall e | e in Run(cfg, steps).task.history :: InScope(cfg)(e)
  {
    RunFaithful(cfg, steps);
    var heeded := Heeded(cfg, Run(cfg, steps).inbox.taken);
    forall e | e in Filter(heeded, InScope(cfg)) ensures InScope(cfg)(e) {
      FilterBag(heeded, InScope(cfg), e);
      assert e in multiset(Filter(heeded, InScope(cfg)));
    }
  }

  function Taken(cfg: Config, steps: seq<Step>): seq<Event> {
    Run(cfg, steps).inbox.taken
  }

  function RecordedBy(cfg: Config, steps: seq<Step>): seq<Event> {
    Run(cfg, steps).task.history
  }

  /** In every run, of the events heeded: each sample is recorded, and a shred or
      slot event exactly if its slot is no lower than a configured start, no
      higher than a configured end and of a wanted leader; as often as heeded. */
  lemma RecordedExactly(cfg: Config, steps: seq<Step>, e: Event)
    ensures multiset(RecordedBy(cfg, steps))[e] ==
            if e.GrpcLatencyEvent?
               || ((cfg.startSlot.None? || cfg.startSlot.value <= SlotOf(e))
                   && (cfg.endSlot.None? || SlotOf(e) <= cfg.endSlot.value)
                   && (cfg.leaders.None? || SlotOf(e) in cfg.leaders.value))
            then multiset(Heeded(cfg, Taken(cfg, steps)))[e] else 0
  {
    RunFaithful(cfg, steps);
    FilterBag(Heeded(cfg, Taken(cfg, steps)), InScope(cfg), e);
  }

  /** What a missed start costs the run. */
  ghost function Lost(cfg: Config, taken: seq<Event>): multiset<Event> {
    if MissedStart(cfg, taken) && InScope(cfg)(taken[FirstReached(cfg, taken).value]) then
      multiset{taken[FirstReached(cfg, taken).value]}
    else multiset{}
  }

  /** A missed start loses exactly the one shred that revealed it, if that one was in scope. */
  lemma KeptAndLost(cfg: Config, taken: seq<Event>)
    ensures multiset(Filter(taken, InScope(cfg))) == multiset(Kept(cfg, taken)) + Lost(cfg, taken)
  {
    if MissedStart(cfg, taken) {
      var i := FirstReached(cfg, taken).value;
      SplitAt(taken, i);
      FilterInsert(taken[..i], taken[i], taken[i + 1..], InScope(cfg));
    }
  }

  lemma BagCancels(a: multiset<Event>, b: multiset<Event>, c: multiset<Event>, d: multiset<Event>)
    requires a + b == c + d
    ensures a == c <==> b == d
  {
    assert a == (a + b) - b && c == (c + d) - d;
    assert b == (a + b) - a && d == (c + d) - c;
  }

  // ---- When the order of taking does not matter ----

  /** What the run loses if this shred is the first to reach the start slot. */
  ghost function LostIfFirst(cfg: Config, e: Event): multiset<Event> {
    if e.ShredEvent? && cfg.PastStart(e.key.slot) && InScope(cfg)(e) then multiset{e}
    else multiset{}
  }

  lemma LostToFirst(cfg: Config, taken: seq<Event>)
    ensures Lost(cfg, taken) == match FirstReached(cfg, taken)
                                case None => multiset{}
                                case Some(i) => LostIfFirst(cfg, taken[i])
  {
  }

  /** Whichever shred were the first to reach the start slot, the loss would be
      the same: a condition on the configuration and the events, whatever their order. */
  ghost predicate OrderFree(cfg: Config, events: seq<Event>) {
    forall a, b | a in events && b in events && Reaches(cfg, a) && Reaches(cfg, b) ::
      LostIfFirst(cfg, a) == LostIfFirst(cfg, b)
  }

  /** Either no shred that could come first is lost, or all that reach the
      start slot are one event; always so without a start slot. */
  lemma OrderFreeMeans(cfg: Config, events: seq<Event>)
    ensures OrderFree(cfg, events)
       <==> || (forall e | e in events && Reaches(cfg, e) :: LostIfFirst(cfg, e) == multiset{})
            || (forall a, b | a in events && b in events && Reaches(cfg, a) && Reaches(cfg, b) :: a == b)
    ensures cfg.startSlot.None? ==> OrderFree(cfg, events) && Kept(cfg, events) == Filter(events, InScope(cfg))
  {
  }

  lemma LostSame(cfg: Config, taken: seq<Event>, taken': seq<Event>)
    requires multiset(taken) == multiset(taken')
    ensures multiset(Kept(cfg, taken)) == multiset(Kept(cfg, taken')) <==> Lost(cfg, taken) == Lost(cfg, taken')
  {
    FilterPermuted(taken, taken', InScope(cfg));
    KeptAndLost(cfg, taken);
    KeptAndLost(cfg, taken');
    BagCancels(multiset(Kept(cfg, taken)), Lost(cfg, taken), multiset(Kept(cfg, taken')), Lost(cfg, taken'));
  }

  lemma KeptIgnoresOrder(cfg: Config, taken: seq<Event>, taken': seq<Event>)
    requires multiset(taken) == multiset(taken') && OrderFree(cfg, taken)
    ensures multiset(Kept(cfg, taken)) == multiset(Kept(cfg, taken'))
  {
    SameElements(taken, taken');
    LostToFirst(cfg, taken);
    LostToFirst(cfg, taken');
    FirstReachedIsFirst(cfg, taken);
    FirstReachedIsFirst(cfg, taken');
    var i, i' := FirstReached(cfg, taken), FirstReached(cfg, taken');
    if i.Some? {
      assert taken[i.value] in taken';
    }
    if i'.Some? {
      assert taken'[i'.value] in taken;
    }
    LostSame(cfg, taken, taken');
  }

  lemma FirstOfAll(cfg: Config, e: Event, rest: seq<Event>)
    requires Reaches(cfg, e)
    ensures Lost(cfg, [e] + rest) == LostIfFirst(cfg, e)
  {
    var taken := [e] + rest;
    FirstReachedIsFirst(cfg, taken);
    assert taken[0] == e;
    LostToFirst(cfg, taken);
  }

  /** Any shred that reaches the start slot may be the first to do so. */
  lemma MayComeFirst(cfg: Config, taken: seq<Event>, e: Event) returns (taken': seq<Event>)
    requires e in taken && Reaches(cfg, e)
    ensures multiset(taken') == multiset(taken) && Lost(cfg, taken') == LostIfFirst(cfg, e)
  {
    var i :| 0 <= i < |taken| && taken[i] == e;
    taken' := BroughtForward(taken, i);
    ForwardBag(taken, i);
    FirstOfAll(cfg, e, taken[..i] + taken[i + 1..]);
  }

  /** What is recorded does not depend on the order of taking, exactly when the events are order-free. */
  lemma KeptOrderFree(cfg: Config, taken: seq<Event>)
    ensures (forall taken' | multiset(taken') == multiset(taken) ::
               multiset(Kept(cfg, taken')) == multiset(Kept(cfg, taken)))
       <==> OrderFree(cfg, taken)
  {
    if OrderFree(cfg, taken) {
      forall taken' | multiset(taken') == multiset(taken)
        ensures multiset(Kept(cfg, taken')) == multiset(Kept(cfg, taken))
      {
        KeptIgnoresOrder(cfg, taken, taken');
      }
    } else {
      var a, b :| a in taken && b in taken && Reaches(cfg, a) && Reaches(cfg, b)
                  && LostIfFirst(cfg, a) != LostIfFirst(cfg, b);
      var first := MayComeFirst(cfg, taken, a);
      var other := MayComeFirst(cfg, taken, b);
      LostSame(cfg, first, taken);
      LostSame(cfg, other, taken);
    }
  }

  /** A run that takes the events in a given order: each is offered and taken before the next. */
  function OneByOne(events: seq<Event>): seq<Step> {
    if events == [] then []
    else OneByOne(Front(events)) + [Produce(Last(events))] + [Take(ChannelOf(Last(events)))]
  }

  ghost predicate AllTaken(s: State, events: seq<Event>) {
    && s.inbox.taken == events && s.task.running && s.inbox.closed == {}
    && s.inbox.shreds == [] && s.inbox.slots == [] && s.inbox.grpc == []
  }

  lemma OneMoreTaken(cfg: Config, s: State, events: seq<Event>, e: Event)
    requires AllTaken(s, events)
    ensures AllTaken(AfterStep(cfg, AfterStep(cfg, s, Produce(e)), Take(ChannelOf(e))), events + [e])
  {
    var b := s.inbox.Offer(true, e);
    assert b.Queue(ChannelOf(e)) == [e] && b.taken == events && b.closed == {};
    assert b.Pop(ChannelOf(e)).taken == events + [e];
  }

  lemma TwoMoreSteps(cfg: Config, steps: seq<Step>, e: Event)
    ensures Run(cfg, steps + [Produce(e)] + [Take(ChannelOf(e))])
            == AfterStep(cfg, AfterStep(cfg, Run(cfg, steps), Produce(e)), Take(ChannelOf(e)))
  {
    RunSnoc(cfg, steps, Produce(e));
    RunSnoc(cfg, steps + [Produce(e)], Take(ChannelOf(e)));
  }

  lemma {:induction false} OneByOneTakes(cfg: Config, events: seq<Event>)
    ensures AllTaken(Run(cfg, OneByOne(events)), events)
  {
    if events == [] {
    } else {
      OneByOneTakes(cfg, Front(events));
      hide AllTaken, AfterStep;
      TwoMoreSteps(cfg, OneByOne(Front(events)), Last(events));
      OneMoreTaken(cfg, Run(cfg, OneByOne(Front(events))), Front(events), Last(events));
      assert events == Front(events) + [Last(events)];
    }
  }

  lemma RecordsKept(cfg: Config, steps: seq<Step>)
    ensures RecordedBy(cfg, steps) == Kept(cfg, Taken(cfg, steps))
  {
    RunFaithful(cfg, steps);
  }

  /** There is a run that takes the events in any given order. */
  lemma SomeRunTakes(cfg: Config, events: seq<Event>) returns (steps: seq<Step>)
    ensures Taken(cfg, steps) == events
  {
    OneByOneTakes(cfg, events);
    steps := OneByOne(events);
  }

  /** All runs that take the same events record the same events, in whatever
      order select! serves the channels, exactly when the events are order-free. */
  lemma RecordingIgnoresOrder(cfg: Config, steps: seq<Step>)
    ensures (forall steps' | multiset(Taken(cfg, steps')) == multiset(Taken(cfg, steps)) ::
               multiset(RecordedBy(cfg, steps')) == multiset(RecordedBy(cfg, steps)))
       <==> OrderFree(cfg, Taken(cfg, steps))
  {
    var taken := Taken(cfg, steps);
    RecordsKept(cfg, steps);
    if OrderFree(cfg, taken) {
      forall steps' | multiset(Taken(cfg, steps')) == multiset(taken)
        ensures multiset(RecordedBy(cfg, steps')) == multiset(RecordedBy(cfg, steps))
      {
        RecordsKept(cfg, steps');
        KeptIgnoresOrder(cfg, taken, Taken(cfg, steps'));
      }
    } else {
      KeptOrderFree(cfg, taken);
      var taken' :| multiset(taken') == multiset(taken) && multiset(Kept(cfg, taken')) != multiset(Kept(cfg, taken));
      var steps' := SomeRunTakes(cfg, taken');
      RecordsKept(cfg, steps');
    }
  }

  /** So with a start slot the order matters: slot 6 before slot 5 costs the run
      slot 6, the other way round it is recorded. */
  lemma MissedStartDependsOnOrder(five: Event, six: Event)
    requires five.ShredEvent? && five.key.slot == 5 && six.ShredEvent? && six.key.slot == 6
    ensures Kept(Config(Some(5), None, None, 30), [five, six]) == [five, six]
    ensures Kept(Config(Some(5), None, None, 30), [six, five]) == [five]
  {
    var cfg := Config(Some(5), None, None, 30);
    assert [five, six] == ([] + [five]) + [six] && [six, five] == ([] + [six]) + [five];
    KeptSnoc(cfg, [], five);
    FirstReachedSnoc(cfg, [], five);
    KeptSnoc(cfg, [] + [five], six);
    KeptSnoc(cfg, [], six);
    FirstReachedSnoc(cfg, [], six);
    KeptSnoc(cfg, [] + [six], five);
  }

  // ---- When the aggregator ends ----

  predicate Finished(b: Inbox, c: Channel) {
    c in b.closed && b.Queue(c) == []
  }

  ghost predicate EndsOnClosed(s: State) {
    !s.task.running ==> exists c :: Finished(s.inbox, c)
  }

  lemma StaysFinished(b: Inbox, c: Channel, receiving: bool, e: Event)
    requires Finished(b, c)
    ensures Finished(b.Offer(receiving, e), c)
  {
  }

  lemma StaysFinishedOnClose(b: Inbox, c: Channel, d: Channel)
    requires Finished(b, c)
    ensures Finished(b.(closed := b.closed + {d}), c)
  {
  }

  lemma StepEndsOnClosed(cfg: Config, s: State, step: Step)
    requires EndsOnClosed(s)
    ensures EndsOnClosed(AfterStep(cfg, s, step))
  {
    match step
    case Produce(e) =>
      forall c | Finished(s.inbox, c) ensures Finished(s.inbox.Offer(s.task.running, e), c) {
        StaysFinished(s.inbox, c, s.task.running, e);
      }
    case Close(d) =>
      forall c | Finished(s.inbox, c) ensures Finished(s.inbox.(closed := s.inbox.closed + {d}), c) {
        StaysFinishedOnClose(s.inbox, c, d);
      }
    case Take(c) => assert s.task.running && s.inbox.Queue(c) == [] && c in s.inbox.closed ==> Finished(s.inbox, c);
    case _ =>
  }

  /** The aggregator ends only on a channel without senders that it has
      emptied, and that one stays empty: what it leaves behind is in the others. */
  lemma {:induction false} RunEndsOnClosed(cfg: Config, steps: seq<Step>)
    ensures EndsOnClosed(Run(cfg, steps))
  {
    if steps == [] {
    } else {
      RunEndsOnClosed(cfg, Front(steps));
      StepEndsOnClosed(cfg, Run(cfg, Front(steps)), Last(steps));
    }
  }

  /** In every run, the aggregator goes on unless it is just served by a closed channel that is empty. */
  lemma AggregatorEnds(cfg: Config, steps: seq<Step>, step: Step)
    ensures Run(cfg, steps + [step]).task.running
       <==> Run(cfg, steps).task.running && !(step.Take? && Finished(Run(cfg, steps).inbox, step.channel))
  {
    RunSnoc(cfg, steps, step);
  }

  // ---- Grace timers ----

  function IsGraceOver(l: Label): bool {
    l == GraceOver
  }

  predicate PastEnd(cfg: Config, e: Event) {
    !e.GrpcLatencyEvent? && cfg.Begun(SlotOf(e)) && cfg.Over(SlotOf(e))
  }

  ghost predicate SawPastEnd(cfg: Config, heeded: seq<Event>) {
    exists e :: e in heeded && PastEnd(cfg, e)
  }

  lemma SawPastEndSnoc(cfg: Config, heeded: seq<Event>, e: Event)
    ensures SawPastEnd(cfg, heeded + [e]) <==> SawPastEnd(cfg, heeded) || PastEnd(cfg, e)
  {
  }

  /** A grace timer is started exactly when an event beyond the end slot was
      heeded, never a second one, and it fires at most once. */
  ghost predicate TimersInOrder(cfg: Config, task: Task, taken: seq<Event>, trace: seq<Label>) {
    && (task.rangeEnd <==> SawPastEnd(cfg, Heeded(cfg, taken)))
    && task.timersStarted == (if task.rangeEnd then 1 else 0)
    && task.pendingTimers + CountIf(trace, IsGraceOver) == task.timersStarted
  }

  lemma BeyondIsPastEnd(cfg: Config, reached: bool, e: Event)
    ensures VerdictOn(cfg, reached, e) == BeyondEnd ==> PastEnd(cfg, e)
    ensures PastEnd(cfg, e) && VerdictOn(cfg, reached, e) != LateStart ==> VerdictOn(cfg, reached, e) == BeyondEnd
    ensures PastEnd(cfg, e) ==> cfg.RangeMode()
  {
  }

  lemma AbsorbKeepsTimers(cfg: Config, task: Task, taken: seq<Event>, trace: seq<Label>, e: Event)
    requires TimersInOrder(cfg, task, taken, trace)
    requires task.reached <==> FirstReached(cfg, taken).Some?
    ensures TimersInOrder(cfg, task.Absorb(cfg, e), taken + [e], trace + [LabelOf(e, VerdictOn(cfg, task.reached, e))])
  {
    hide VerdictOn, PastEnd, Heeded, SawPastEnd, FirstReached;
    BeyondIsPastEnd(cfg, task.reached, e);
    CountIfSnoc(trace, LabelOf(e, VerdictOn(cfg, task.reached, e)), IsGraceOver);
    HeededSnoc(cfg, taken, e);
    SawPastEndSnoc(cfg, Heeded(cfg, taken), e);
  }

  lemma OtherLabelKeepsTimers(cfg: Config, task: Task, taken: seq<Event>, trace: seq<Label>, l: Label)
    requires TimersInOrder(cfg, task, taken, trace) && l != GraceOver
    ensures TimersInOrder(cfg, task, taken, trace + [l])
  {
    CountIfSnoc(trace, l, IsGraceOver);
  }

  lemma TakeKeepsTimers(cfg: Config, s: State, c: Channel)
    requires TimersInOrder(cfg, s.task, s.inbox.taken, s.trace) && Faithful(cfg, s)
    ensures var s' := AfterTake(cfg, s, c); TimersInOrder(cfg, s'.task, s'.inbox.taken, s'.trace)
  {
    if s.task.running && s.inbox.Queue(c) != [] {
      QueueReplaced(s.inbox, c, s.inbox.Queue(c)[1..]);
      AbsorbKeepsTimers(cfg, s.task, s.inbox.taken, s.trace, s.inbox.Queue(c)[0]);
    }
  }

  lemma StepKeepsTimers(cfg: Config, s: State, step: Step)
    requires TimersInOrder(cfg, s.task, s.inbox.taken, s.trace) && Faithful(cfg, s)
    ensures var s' := AfterStep(cfg, s, step); TimersInOrder(cfg, s'.task, s'.inbox.taken, s'.trace)
  {
    match step
    case Produce(e) => OfferTakesNothing(s.inbox, s.task.running, e);
    case Take(c) => TakeKeepsTimers(cfg, s, c);
    case Tick => OtherLabelKeepsTimers(cfg, s.task, s.inbox.taken, s.trace, Label.Second);
    case GraceExpiry => CountIfSnoc(s.trace, GraceOver, IsGraceOver);
    case Stop => OtherLabelKeepsTimers(cfg, s.task, s.inbox.taken, s.trace, Stopped);
    case _ =>
  }

  lemma {:induction false} RunKeepsTimers(cfg: Config, steps: seq<Step>)
    ensures var s := Run(cfg, steps); TimersInOrder(cfg, s.task, s.inbox.taken, s.trace)
  {
    if steps == [] {
    } else {
      RunKeepsTimers(cfg, Front(steps));
      RunFaithful(cfg, Front(steps));
      StepKeepsTimers(cfg, Run(cfg, Front(steps)), Last(steps));
    }
  }

  /** In every run, a grace timer was started if and only if an end slot is
      configured and an event of a higher slot was heeded (that is not before the
      start, which only matters to a start beyond the end). */
  lemma TimerStartedExactly(cfg: Config, steps: seq<Step>)
    ensures Run(cfg, steps).task.timersStarted <= 1
    ensures Run(cfg, steps).task.timersStarted == 1
       <==> && cfg.endSlot.Some?
            && exists e :: e in Heeded(cfg, Taken(cfg, steps)) && !e.GrpcLatencyEvent?
                           && SlotOf(e) > cfg.endSlot.value
                           && (cfg.startSlot.None? || cfg.startSlot.value <= SlotOf(e))
  {
    RunKeepsTimers(cfg, steps);
    assert forall e :: PastEnd(cfg, e) <==> !e.GrpcLatencyEvent? && cfg.Begun(SlotOf(e)) && cfg.Over(SlotOf(e));
  }

  // ---- The silence monitor over a trace ----

  /** Seconds that passed since the last event that set the activity flag,
      which also counts as set at the start. */
  function SecondsSinceBusy(trace: seq<Label>): nat {
    if trace == [] then 0
    else
      match Last(trace)
      case Busy => 0
      case Second => SecondsSinceBusy(Front(trace)) + 1
      case _ => SecondsSinceBusy(Front(trace))
  }

  function UpToLastSecond(trace: seq<Label>): seq<Label> {
    if trace == [] || Last(trace) == Label.Second then trace else UpToLastSecond(Front(trace))
  }

  /** The number of consecutive silent seconds at the last tick: the second in
      which the last activity fell is not silent itself. */
  function SilentSeconds(trace: seq<Label>): nat {
    SaturatingSub(SecondsSinceBusy(UpToLastSecond(trace)), 1)
  }

  lemma {:induction false} NoBusySinceLastSecond(trace: seq<Label>)
    requires SecondsSinceBusy(trace) > 0
    ensures SecondsSinceBusy(UpToLastSecond(trace)) == SecondsSinceBusy(trace)
  {
    if Last(trace) == Label.Second {
    } else {
      NoBusySinceLastSecond(Front(trace));
    }
  }

  function AtLeastOne(n: nat): nat {
    if n == 0 then 1 else n
  }

  predicate SilenceReached(cfg: Config, trace: seq<Label>) {
    SilentSeconds(trace) >= AtLeastOne(cfg.silenceTimeout)
  }

  /** The monitor's counter is the number of trailing silent seconds; it keeps
      watching until they reach the timeout (one second for a timeout of 0) or
      it finds the run cancelled. */
  ghost predicate MonitorExact(cfg: Config, s: State) {
    && s.monitor.silentSecs == SilentSeconds(s.trace)
    && (s.monitor.activity <==> SecondsSinceBusy(s.trace) == 0)
    && (s.monitor.watching ==> !SilenceReached(cfg, s.trace))
    && (!s.monitor.watching ==> s.cancelled)
  }

  lemma LabelSnoc(trace: seq<Label>, l: Label)
    ensures SecondsSinceBusy(trace + [l])
            == if l == Busy then 0 else SecondsSinceBusy(trace) + if l == Label.Second then 1 else 0
    ensures l != Label.Second ==> SilentSeconds(trace + [l]) == SilentSeconds(trace)
    ensures l == Label.Second ==> SilentSeconds(trace + [l]) == SecondsSinceBusy(trace)
  {
  }

  lemma TickKeepsMonitor(cfg: Config, s: State)
    requires MonitorExact(cfg, s)
    ensures MonitorExact(cfg, AfterTick(cfg, s))
  {
    LabelSnoc(s.trace, Label.Second);
    if SecondsSinceBusy(s.trace) > 0 {
      NoBusySinceLastSecond(s.trace);
    }
  }

  lemma StepKeepsMonitor(cfg: Config, s: State, step: Step)
    requires MonitorExact(cfg, s)
    ensures MonitorExact(cfg, AfterStep(cfg, s, step))
  {
    match step
    case Tick => TickKeepsMonitor(cfg, s);
    case Take(c) =>
      if s.task.running && s.inbox.Queue(c) != [] {
        var e := s.inbox.Queue(c)[0];
        LabelSnoc(s.trace, LabelOf(e, VerdictOn(cfg, s.task.reached, e)));
      }
    case GraceExpiry => LabelSnoc(s.trace, GraceOver);
    case Stop => LabelSnoc(s.trace, Stopped);
    case _ =>
  }

  lemma {:induction false} RunKeepsMonitor(cfg: Config, steps: seq<Step>)
    ensures MonitorExact(cfg, Run(cfg, steps))
  {
    if steps == [] {
    } else {
      RunKeepsMonitor(cfg, Front(steps));
      StepKeepsMonitor(cfg, Run(cfg, Front(steps)), Last(steps));
    }
  }

  /** The first shred taken at or after a configured start slot, and already past it. */
  predicate RevealsMiss(cfg: Config, taken: seq<Event>, e: Event) {
    && e.ShredEvent? && cfg.PastStart(e.key.slot)
    && forall t | t in taken :: !Reaches(cfg, t)
  }

  lemma RevealingIsLate(cfg: Config, taken: seq<Event>, e: Event)
    ensures RevealsMiss(cfg, taken, e) <==> VerdictOn(cfg, FirstReached(cfg, taken).Some?, e) == LateStart
  {
    FirstReachedIsFirst(cfg, taken);
    var i := FirstReached(cfg, taken);
    if i.Some? {
      assert taken[i.value] in taken;
    }
  }

  lemma TakeLabels(cfg: Config, s: State, c: Channel)
    requires s.task.running && s.inbox.Queue(c) != []
    ensures var e := s.inbox.Queue(c)[0];
            AfterTake(cfg, s, c).trace == s.trace + [LabelOf(e, VerdictOn(cfg, s.task.reached, e))]
  {
  }

  lemma TakePostpones(cfg: Config, s: State, c: Channel)
    requires Faithful(cfg, s) && s.task.running && s.inbox.Queue(c) != []
    ensures var e := s.inbox.Queue(c)[0];
            SecondsSinceBusy(AfterTake(cfg, s, c).trace)
            == (if e.GrpcLatencyEvent? || PastEnd(cfg, e) || RevealsMiss(cfg, s.inbox.taken, e)
                then SecondsSinceBusy(s.trace) else 0)
  {
    var e := s.inbox.Queue(c)[0];
    hide AfterTake, SecondsSinceBusy;
    TakeLabels(cfg, s, c);
    RevealingIsLate(cfg, s.inbox.taken, e);
    LabelSnoc(s.trace, LabelOf(e, VerdictOn(cfg, s.task.reached, e)));
  }

  /** In every run, for every event taken next: a gRPC sample, an event beyond
      the end slot and the shred that reveals a missed start do not postpone the
      silence timeout; any other event does. */
  lemma WhatPostponesSilence(cfg: Config, steps: seq<Step>, c: Channel)
    requires Run(cfg, steps).task.running && Run(cfg, steps).inbox.Queue(c) != []
    ensures var s, s' := Run(cfg, steps), Run(cfg, steps + [Take(c)]);
            var e := s.inbox.Queue(c)[0];
            SecondsSinceBusy(s'.trace)
            == (if e.GrpcLatencyEvent? || PastEnd(cfg, e) || RevealsMiss(cfg, s.inbox.taken, e)
                then SecondsSinceBusy(s.trace) else 0)
  {
    RunSnoc(cfg, steps, Take(c));
    RunFaithful(cfg, steps);
    TakePostpones(cfg, Run(cfg, steps), c);
  }

  // ---- Cancellation ----

  /** A run is cancelled for one of four reasons, and for no other. */
  ghost predicate CancelledForCause(cfg: Config, s: State) {
    s.cancelled <==>
      || Stopped in s.trace
      || GraceOver in s.trace
      || MissedStart(cfg, s.inbox.taken)
      || SilenceReached(cfg, s.trace)
  }

  lemma StepKeepsCause(cfg: Config, s: State, step: Step)
    requires CancelledForCause(cfg, s) && MonitorExact(cfg, s) && Faithful(cfg, s)
    ensures CancelledForCause(cfg, AfterStep(cfg, s, step))
  {
    StepKeepsMonitor(cfg, s, step);
    match step
    case Produce(e) => OfferTakesNothing(s.inbox, s.task.running, e);
    case Take(c) =>
      if s.task.running && s.inbox.Queue(c) != [] {
        var e := s.inbox.Queue(c)[0];
        QueueReplaced(s.inbox, c, s.inbox.Queue(c)[1..]);
        ReachedSnoc(cfg, s.inbox.taken, e);
        LabelSnoc(s.trace, LabelOf(e, VerdictOn(cfg, s.task.reached, e)));
      }
    case Tick =>
      LabelSnoc(s.trace, Label.Second);
      if SecondsSinceBusy(s.trace) > 0 {
        NoBusySinceLastSecond(s.trace);
      }
    case GraceExpiry => LabelSnoc(s.trace, GraceOver);
    case Stop => LabelSnoc(s.trace, Stopped);
    case _ =>
  }

  lemma {:induction false} RunCancelledForCause(cfg: Config, steps: seq<Step>)
    ensures CancelledForCause(cfg, Run(cfg, steps))
  {
    if steps == [] {
    } else {
      RunCancelledForCause(cfg, Front(steps));
      RunKeepsMonitor(cfg, Front(steps));
      RunFaithful(cfg, Front(steps));
      StepKeepsCause(cfg, Run(cfg, Front(steps)), Last(steps));
    }
  }

  /** Cancellation is never undone, whatever steps follow. */
  lemma {:induction false} CancellationIsFinal(cfg: Config, steps: seq<Step>, more: seq<Step>)
    requires Run(cfg, steps).cancelled
    ensures Run(cfg, steps + more).cancelled
  {
    if more == [] {
      assert steps + more == steps;
    } else {
      CancellationIsFinal(cfg, steps, Front(more));
      assert steps + more == (steps + Front(more)) + [Last(more)];
      RunSnoc(cfg, steps + Front(more), Last(more));
    }
  }
}
