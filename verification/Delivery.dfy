/** From a channel to a record: the arrivals the registry holds for a shred are
    what the shred channel accepted for it, in that order. */
module Delivery {
  import opened Sequences
  import opened Shred
  import opened Registry
  import opened Stats
  import Wins
  import opened Aggregator

  lemma {:induction false} ArrivalsOnChannel(xs: seq<Event>, k: ShredKey)
    ensures Arrivals(Filter(xs, On(Shreds)), k) == Arrivals(xs, k)
  {
    if xs == [] {
    } else {
      ArrivalsOnChannel(Front(xs), k);
      ArrivalsSnoc(Filter(Front(xs), On(Shreds)), Last(xs), k);
    }
  }

  lemma {:induction false} ArrivalsInScope(cfg: Config, xs: seq<Event>, k: ShredKey)
    ensures Arrivals(Filter(xs, InScope(cfg)), k) == if cfg.Wants(k.slot) then Arrivals(xs, k) else []
  {
    if xs == [] {
    } else {
      ArrivalsInScope(cfg, Front(xs), k);
      ArrivalsSnoc(Filter(Front(xs), InScope(cfg)), Last(xs), k);
    }
  }

  lemma {:induction false} NoneReached(cfg: Config, xs: seq<Event>, k: ShredKey)
    requires cfg.Begun(k.slot) && forall j | 0 <= j < |xs| :: !Reaches(cfg, xs[j])
    ensures Arrivals(xs, k) == []
  {
    if xs == [] {
    } else {
      NoneReached(cfg, Front(xs), k);
    }
  }

  /** What a missed start takes from a key's arrivals. */
  function MissedArrival(cfg: Config, taken: seq<Event>, k: ShredKey): seq<Arrival> {
    if MissedStart(cfg, taken) then
      var late := taken[FirstReached(cfg, taken).value];
      if late.key == k then [Arrival(late.source, late.at)] else []
    else []
  }

  /** Prepending events without arrivals of the key changes nothing for it. */
  lemma NothingBefore(before: seq<Event>, xs: seq<Event>, k: ShredKey)
    requires Arrivals(before, k) == []
    ensures Arrivals(before + xs, k) == Arrivals(xs, k)
  {
    ArrivalsConcat(before, xs, k);
  }

  lemma ArrivalsAround(before: seq<Event>, e: Event, after: seq<Event>, k: ShredKey)
    requires Arrivals(before, k) == []
    ensures Arrivals(before + [e] + after, k) == Arrivals([e], k) + Arrivals(before + after, k)
    ensures Arrivals([e], k) == if e.ShredEvent? && e.key == k then [Arrival(e.source, e.at)] else []
  {
    NothingBefore(before, [e], k);
    NothingBefore(before, after, k);
    ArrivalsConcat(before + [e], after, k);
    ArrivalsOfOne(e, k);
  }

  /** The shred that revealed a missed start is the first arrival of its key. */
  lemma ArrivalsHeeded(cfg: Config, taken: seq<Event>, k: ShredKey)
    requires cfg.Begun(k.slot)
    ensures Arrivals(taken, k) == MissedArrival(cfg, taken, k) + Arrivals(Heeded(cfg, taken), k)
  {
    if MissedStart(cfg, taken) {
      var i := FirstReached(cfg, taken).value;
      FirstReachedIsFirst(cfg, taken);
      NoneReached(cfg, taken[..i], k);
      SplitAt(taken, i);
      ArrivalsAround(taken[..i], taken[i], taken[i + 1..], k);
    }
  }

  /** In every run: a shred out of scope has no record; for any other, what was
      taken is recorded in full and in order, except for the first arrival of
      the shred that revealed a missed start; and what was taken is what the
      channel accepted, less what it still holds. */
  lemma RecordedAsAccepted(cfg: Config, steps: seq<Step>, k: ShredKey)
    ensures var s := Run(cfg, steps);
            && Arrivals(s.inbox.accepted, k) == Arrivals(s.inbox.taken, k) + Arrivals(s.inbox.shreds, k)
            && if cfg.Wants(k.slot) then
                 Arrivals(s.inbox.taken, k) == MissedArrival(cfg, s.inbox.taken, k) + Arrivals(s.task.history, k)
               else Arrivals(s.task.history, k) == []
  {
    var s := Run(cfg, steps);
    var b, taken := s.inbox, s.inbox.taken;
    RunConserves(cfg, steps);
    assert b.ChannelInOrder(Shreds);
    ArrivalsOnChannel(b.accepted, k);
    ArrivalsOnChannel(taken, k);
    ArrivalsConcat(Filter(taken, On(Shreds)), b.shreds, k);
    RunFaithful(cfg, steps);
    ArrivalsInScope(cfg, Heeded(cfg, taken), k);
    if cfg.Wants(k.slot) {
      ArrivalsHeeded(cfg, taken, k);
    }
  }

  ghost predicate TimeOrdered(arrivals: seq<Arrival>) {
    forall i, j | 0 <= i < j < |arrivals| :: arrivals[i].at <= arrivals[j].at
  }

  lemma MiddleOrdered(before: seq<Arrival>, middle: seq<Arrival>, after: seq<Arrival>)
    requires TimeOrdered(before + middle + after)
    ensures TimeOrdered(middle)
  {
    var all := before + middle + after;
    assert forall i | 0 <= i < |middle| :: middle[i] == all[|before| + i];
  }

  /** So if the channel accepted a shred's arrivals in time order, the winners
      of the shred are exactly the sources that tie its earliest recorded
      arrival, and each latency is the exact distance to it. */
  lemma OrderedDeliveryWins(cfg: Config, steps: seq<Step>, m: map<ShredKey, ShredRecord>, k: ShredKey, id: SourceId)
    requires ShredsExact(m, Run(cfg, steps).task.history) && k in m && Has(m[k], id) && Wins.Untruncated(m[k])
    requires TimeOrdered(Arrivals(Run(cfg, steps).inbox.accepted, k))
    ensures Delta(m[k], id) == 0 <==> FirstFrom(m[k], id) == Wins.GlobalFirst(m[k])
    ensures Delta(m[k], id) == FirstFrom(m[k], id) - Wins.GlobalFirst(m[k])
  {
    RecordedAsAccepted(cfg, steps, k);
    var s := Run(cfg, steps);
    MiddleOrdered(MissedArrival(cfg, s.inbox.taken, k), Arrivals(s.task.history, k), Arrivals(s.inbox.shreds, k));
    Wins.TimeOrderedWins(m[k], id);
  }
}
