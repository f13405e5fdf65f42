/** The dispatch part of capture_loop in src/sources/pcap.rs, and the grouping
    of capture sources onto sockets in src/main.rs. */
module Capture {
  import opened Bytes
  import opened Sequences
  import opened Shred
  import opened Registry
  import opened Pcap
  import opened Aggregator
  import Bench

  // ---- Routes ----

  datatype Route = Route(source: SourceId, includeIps: set<Ipv4Addr>, excludeIps: set<Ipv4Addr>) {
    predicate HasFilter() {
      includeIps != {} || excludeIps != {}
    }
  }

  predicate RouteMatches(route: Route, srcIp: Option<Ipv4Addr>) {
    if !route.HasFilter() then true
    else
      match srcIp
      case None => false
      case Some(ip) =>
        if route.includeIps != {} && ip !in route.includeIps then false
        else if route.excludeIps != {} && ip in route.excludeIps then false
        else true
  }

  /** One event per matching route, in route order, all with one key and one timestamp. */
  function Routed(routes: seq<Route>, srcIp: Option<Ipv4Addr>, key: ShredKey, at: Instant): seq<Event> {
    if routes == [] then []
    else
      var before := Routed(Front(routes), srcIp, key, at);
      if RouteMatches(Last(routes), srcIp) then before + [ShredEvent(Last(routes).source, key, at)] else before
  }

  /** What a captured frame is worth: its source address is always looked at here. */
  function FrameEvents(routes: seq<Route>, frame: Buffer, at: Instant): seq<Event> {
    match FrameKey(frame)
    case None => []
    case Some(key) => Routed(routes, ExtractSrcIp(frame), key, at)
  }

  /** What a route's two sets of addresses ask of a source address. */
  function WantsFrom(ip: Ipv4Addr): Route -> bool {
    (r: Route) => (r.includeIps == {} || ip in r.includeIps) && ip !in r.excludeIps
  }

  /** A filter needs an address, and both sets have to agree with it. */
  lemma RouteMatchesExactly(route: Route, srcIp: Option<Ipv4Addr>)
    ensures RouteMatches(route, srcIp)
       <==> match srcIp
            case None => route.includeIps == {} && route.excludeIps == {}
            case Some(ip) => WantsFrom(ip)(route)
  {
  }

  function EventsFor(routes: seq<Route>, key: ShredKey, at: Instant): seq<Event> {
    seq(|routes|, i requires 0 <= i < |routes| => ShredEvent(routes[i].source, key, at))
  }

  lemma {:induction false} RoutedExactly(routes: seq<Route>, ip: Ipv4Addr, key: ShredKey, at: Instant)
    ensures Routed(routes, Some(ip), key, at) == EventsFor(Filter(routes, WantsFrom(ip)), key, at)
  {
    if routes == [] {
    } else {
      RoutedExactly(Front(routes), ip, key, at);
      RouteMatchesExactly(Last(routes), Some(ip));
    }
  }

  lemma NothingCarried(routes: seq<Route>, wire: Buffer, at: Instant)
    requires forall ip: nat, key :: !Carries(wire, ip, key)
    ensures FrameEvents(routes, Received(wire), at) == []
  {
    if FrameKey(Received(wire)).Some? {
      KeyOfFrame(wire, FrameKey(Received(wire)).value);
    }
  }

  /** For every frame on the wire: if it carries a shred, each route that wants
      its source address gets one event, in the order of the routes, with the
      frame's key and arrival time; if it carries none, there is no event. */
  lemma FrameEventsExactly(routes: seq<Route>, wire: Buffer, at: Instant)
    ensures forall ip: nat, key, a: Ipv4Addr | Carries(wire, ip, key) && HasSource(wire, ip, a) ::
              FrameEvents(routes, Received(wire), at) == EventsFor(Filter(routes, WantsFrom(a)), key, at)
    ensures (forall ip: nat, key :: !Carries(wire, ip, key)) ==> FrameEvents(routes, Received(wire), at) == []
  {
    forall ip: nat, key, a: Ipv4Addr | Carries(wire, ip, key) && HasSource(wire, ip, a)
      ensures FrameEvents(routes, Received(wire), at) == EventsFor(Filter(routes, WantsFrom(a)), key, at)
    {
      KeyOfFrame(wire, key);
      ReceivedSource(wire);
      SourceBytes(wire, a);
      RoutedExactly(routes, a, key, at);
    }
    if forall ip: nat, key :: !Carries(wire, ip, key) {
      NothingCarried(routes, wire, at);
    }
  }

  lemma {:induction false} UnfilteredRoutes(routes: seq<Route>, a: Option<Ipv4Addr>, b: Option<Ipv4Addr>,
                                            key: ShredKey, at: Instant)
    requires forall r | r in routes :: !r.HasFilter()
    ensures Routed(routes, a, key, at) == Routed(routes, b, key, at)
  {
    if routes == [] {
    } else {
      UnfilteredRoutes(Front(routes), a, b, key, at);
    }
  }

  // ---- Offering a frame's events to the shred channel ----

  function Least(a: nat, b: nat): nat {
    if a < b then a else b
  }

  lemma OneMore(events: seq<Event>, event: Event, sent: nat)
    requires sent <= |events|
    ensures (events + [event])[..sent] == events[..sent]
    ensures sent == |events| ==> (events + [event])[..sent + 1] == events[..sent] + [event]
    ensures (events + [event])[|events| + 1..] == []
    ensures forall id :: CountIf((events + [event])[sent..], From(id))
                         == CountIf(events[sent..], From(id)) + if id == event.source then 1 else 0
  {
    assert (events + [event])[sent..] == events[sent..] + [event];
    forall id ensures CountIf(events[sent..] + [event], From(id))
                      == CountIf(events[sent..], From(id)) + if id == event.source then 1 else 0
    {
      CountIfSnoc(events[sent..], event, From(id));
    }
  }

  function OfferAll(b: Inbox, receiving: bool, events: seq<Event>): Inbox {
    if events == [] then b else OfferAll(b, receiving, Front(events)).Offer(receiving, Last(events))
  }

  lemma OfferAllSnoc(b: Inbox, receiving: bool, events: seq<Event>, e: Event)
    ensures OfferAll(b, receiving, events + [e]) == OfferAll(b, receiving, events).Offer(receiving, e)
  {
    Snoc(events, e);
  }

  /** How many shreds the channel still takes. */
  function Room(b: Inbox, receiving: bool): nat {
    if receiving then SaturatingSub(Capacity(Shreds), |b.shreds|) else 0
  }

  /** `after` is `before` with one more shred accepted, or counted as a drop when there is no room. */
  ghost predicate OneOffered(before: Inbox, receiving: bool, e: Event, after: Inbox) {
    && after.shreds == (if Room(before, receiving) > 0 then before.shreds + [e] else before.shreds)
    && after.produced == before.produced + [e] && after.closed == before.closed
    && forall id :: after.DropsOf(id) == before.DropsOf(id)
                                         + if Room(before, receiving) == 0 && id == e.source then 1 else 0
  }

  lemma OfferShred(b: Inbox, receiving: bool, e: Event)
    requires Shreds !in b.closed && e.ShredEvent?
    ensures OneOffered(b, receiving, e, b.Offer(receiving, e))
  {
  }

  /** `after` is `before` with as many of the shreds as there is room for
      accepted in order, and each other one counted as a drop of its source. */
  ghost predicate Delivered(before: Inbox, receiving: bool, events: seq<Event>, after: Inbox) {
    var sent := Least(Room(before, receiving), |events|);
    && after.shreds == before.shreds + events[..sent]
    && after.produced == before.produced + events && after.closed == before.closed
    && forall id: SourceId :: after.DropsOf(id) == before.DropsOf(id) + CountIf(events[sent..], From(id))
  }

  lemma DeliveredSnoc(b: Inbox, receiving: bool, events: seq<Event>, e: Event, mid: Inbox, after: Inbox)
    requires Delivered(b, receiving, events, mid) && OneOffered(mid, receiving, e, after)
    ensures Delivered(b, receiving, events + [e], after)
  {
    OneMore(events, e, Least(Room(b, receiving), |events|));
  }

  /** Offering shreds one after the other fills the channel up to its room, in
      order, and counts every other one as a drop of its source. */
  lemma {:induction false} AllDelivered(b: Inbox, receiving: bool, events: seq<Event>)
    requires Shreds !in b.closed && forall e | e in events :: e.ShredEvent?
    ensures Delivered(b, receiving, events, OfferAll(b, receiving, events))
  {
    if events == [] {
    } else {
      var before, e := Front(events), Last(events);
      assert events == before + [e];
      AllDelivered(b, receiving, before);
      var mid := OfferAll(b, receiving, before);
      OfferShred(mid, receiving, e);
      DeliveredSnoc(b, receiving, before, e, mid, mid.Offer(receiving, e));
    }
  }

  lemma {:induction false} RoutedShreds(routes: seq<Route>, srcIp: Option<Ipv4Addr>, key: ShredKey, at: Instant)
    ensures forall e | e in Routed(routes, srcIp, key, at) :: e.ShredEvent?
  {
    if routes == [] {
    } else {
      RoutedShreds(Front(routes), srcIp, key, at);
    }
  }

  /** Offer one parsed shred to every route. */
  method Dispatch(routes: seq<Route>, srcIp: Option<Ipv4Addr>, key: ShredKey, at: Instant, bench: Bench.Bench)
    requires Shreds !in bench.closed
    modifies bench`shreds, bench`slots, bench`grpc, bench`produced, bench`dropped, bench`accepted, bench.drops
    ensures bench.Channels() == OfferAll(old(bench.Channels()), bench.running, Routed(routes, srcIp, key, at))
    ensures Delivered(old(bench.Channels()), bench.running, Routed(routes, srcIp, key, at), bench.Channels())
  {
    ghost var events: seq<Event> := [];
    for i := 0 to |routes|
      invariant events == Routed(routes[..i], srcIp, key, at)
      invariant bench.Channels() == OfferAll(old(bench.Channels()), bench.running, events)
    {
      assert routes[..i + 1] == routes[..i] + [routes[i]];
      if RouteMatches(routes[i], srcIp) {
        var event := ShredEvent(routes[i].source, key, at);
        bench.Offer(event);
        OfferAllSnoc(old(bench.Channels()), bench.running, events, event);
        events := events + [event];
      }
    }
    assert routes[..|routes|] == routes;
    RoutedShreds(routes, srcIp, key, at);
    AllDelivered(old(bench.Channels()), bench.running, events);
  }

  /** The body of the capture loop for one frame on the wire, which the receive
      buffer cuts. Skipping the source address when no route filters changes
      nothing; the events go out in order as long as there is room, and every
      other one is counted as a drop. */
  method CaptureFrame(routes: seq<Route>, wire: Buffer, at: Instant, bench: Bench.Bench)
    requires Shreds !in bench.closed
    modifies bench`shreds, bench`slots, bench`grpc, bench`produced, bench`dropped, bench`accepted, bench.drops
    ensures var events := FrameEvents(routes, Received(wire), at);
            && bench.Channels() == OfferAll(old(bench.Channels()), bench.running, events)
            && Delivered(old(bench.Channels()), bench.running, events, bench.Channels())
  {
    var hasAnyFilter := exists r :: r in routes && r.HasFilter();
    var frame := Received(wire);
    var srcIp := if hasAnyFilter then ExtractSrcIp(frame) else None;
    var payload := ExtractUdpPayload(frame);
    if payload.Some? {
      var key := ParseShredKey(payload.value);
      if key.Some? {
        Dispatch(routes, srcIp, key.value, at, bench);
        if !hasAnyFilter {
          UnfilteredRoutes(routes, srcIp, ExtractSrcIp(frame), key.value, at);
        }
      }
    }
  }

  /** Any frame that carries a UDP payload has a readable source address. */
  lemma PayloadHasSourceIp(frame: Buffer)
    requires ExtractUdpPayload(frame).Some?
    ensures ExtractSrcIp(frame).Some?
  {
  }

  /** Two routes that include and exclude one set of addresses split the
      payload-carrying frames between them, exactly when the set is not empty. */
  lemma IncludeExcludeSplit(ips: set<Ipv4Addr>, a: SourceId, b: SourceId)
    ensures ips != {}
       <==> forall frame | ExtractUdpPayload(frame).Some? ::
              RouteMatches(Route(a, ips, {}), ExtractSrcIp(frame))
              <==> !RouteMatches(Route(b, {}, ips), ExtractSrcIp(frame))
  {
    forall frame | ExtractUdpPayload(frame).Some? ensures ExtractSrcIp(frame).Some? {
      PayloadHasSourceIp(frame);
    }
    FrameRoundTrip(None, [1, 2, 3, 4], 8001, [], 8001);
    assert ExtractUdpPayload(Frame(None, [1, 2, 3, 4], 8001, [])).Some?;
  }

  // ---- Grouping capture sources by (port, interface) ----

  datatype PcapConfig = PcapConfig(enabled: bool, port: u16, interface: string,
                                   sourceIps: set<Ipv4Addr>, excludeIps: set<Ipv4Addr>)

  datatype GroupKey = GroupKey(port: u16, interface: string)

  datatype Member = Member(key: GroupKey, route: Route)

  predicate Enabled(c: PcapConfig) {
    c.enabled
  }

  function InGroup(key: GroupKey): Member -> bool {
    (m: Member) => m.key == key
  }

  /** The enabled sources with the ids they get, counting up from the first free id. */
  function Members(cfgs: seq<PcapConfig>, firstId: nat): seq<Member>
    requires firstId + |cfgs| <= 0xffff_ffff
    ensures |Members(cfgs, firstId)| <= |cfgs|
  {
    if cfgs == [] then []
    else
      var c, before := Last(cfgs), Members(Front(cfgs), firstId);
      if c.enabled then
        before + [Member(GroupKey(c.port, c.interface), Route(firstId + |before|, c.sourceIps, c.excludeIps))]
      else before
  }

  lemma MembersSnoc(cfgs: seq<PcapConfig>, c: PcapConfig, firstId: nat)
    requires firstId + |cfgs| < 0xffff_ffff
    ensures var before := Members(cfgs, firstId);
            Members(cfgs + [c], firstId)
            == if c.enabled then before + [Member(GroupKey(c.port, c.interface),
                                                  Route(firstId + |before|, c.sourceIps, c.excludeIps))]
               else before
  {
    Snoc(cfgs, c);
  }

  lemma {:induction false} IdsCountUp(cfgs: seq<PcapConfig>, firstId: nat)
    requires firstId + |cfgs| <= 0xffff_ffff
    ensures |Members(cfgs, firstId)| == CountIf(cfgs, Enabled)
    ensures forall i | 0 <= i < |Members(cfgs, firstId)| :: Members(cfgs, firstId)[i].route.source == firstId + i
  {
    if cfgs == [] {
    } else {
      IdsCountUp(Front(cfgs), firstId);
    }
  }

  /** Each group lists the sources of its key, in order; no group is empty. */
  ghost predicate GroupedBy(groups: map<GroupKey, seq<Member>>, members: seq<Member>) {
    forall key: GroupKey ::
      && (key in groups <==> Filter(members, InGroup(key)) != [])
      && (key in groups ==> groups[key] == Filter(members, InGroup(key)))
  }

  lemma OneMoreMember(groups: map<GroupKey, seq<Member>>, members: seq<Member>, m: Member)
    requires GroupedBy(groups, members)
    ensures GroupedBy(groups[m.key := (if m.key in groups then groups[m.key] else []) + [m]], members + [m])
  {
  }

  method AddMember(groups: map<GroupKey, seq<Member>>, m: Member, ghost members: seq<Member>)
    returns (groups': map<GroupKey, seq<Member>>)
    requires GroupedBy(groups, members)
    ensures GroupedBy(groups', members + [m])
  {
    OneMoreMember(groups, members, m);
    groups' := groups[m.key := (if m.key in groups then groups[m.key] else []) + [m]];
  }

  method GroupSources(cfgs: seq<PcapConfig>, firstId: nat)
    returns (groups: map<GroupKey, seq<Member>>, nextId: nat)
    requires firstId + |cfgs| <= 0xffff_ffff
    ensures nextId == firstId + CountIf(cfgs, Enabled)
    ensures GroupedBy(groups, Members(cfgs, firstId))
  {
    groups, nextId := map[], firstId;
    ghost var members: seq<Member> := [];
    for i := 0 to |cfgs|
      invariant members == Members(cfgs[..i], firstId)
      invariant nextId == firstId + |members|
      invariant GroupedBy(groups, members)
    {
      assert cfgs[..i + 1] == cfgs[..i] + [cfgs[i]];
      MembersSnoc(cfgs[..i], cfgs[i], firstId);
      var cfg := cfgs[i];
      if cfg.enabled {
        var id := nextId;
        nextId := nextId + 1;
        var member := Member(GroupKey(cfg.port, cfg.interface), Route(id, cfg.sourceIps, cfg.excludeIps));
        groups := AddMember(groups, member, members);
        members := members + [member];
      }
    }
    assert cfgs[..|cfgs|] == cfgs;
    IdsCountUp(cfgs, firstId);
  }

  /** The groups partition the enabled sources: each is in the group of its own
      port and interface, in no other, and no two sources share an id. */
  lemma GroupsPartition(cfgs: seq<PcapConfig>, firstId: nat, groups: map<GroupKey, seq<Member>>)
    requires firstId + |cfgs| <= 0xffff_ffff
    requires GroupedBy(groups, Members(cfgs, firstId))
    ensures forall m: Member, key :: m in Members(cfgs, firstId) ==>
              ((key in groups && m in groups[key]) <==> key == m.key)
    ensures forall m: Member, key :: key in groups && m in groups[key] ==> m in Members(cfgs, firstId)
    ensures forall i, j | 0 <= i < j < |Members(cfgs, firstId)| ::
              Members(cfgs, firstId)[i].route.source != Members(cfgs, firstId)[j].route.source
  {
    IdsCountUp(cfgs, firstId);
    forall m: Member, key: GroupKey
      ensures m in Filter(Members(cfgs, firstId), InGroup(key)) <==> m in Members(cfgs, firstId) && m.key == key
    {
      FilterMembers(Members(cfgs, firstId), InGroup(key), m);
    }
  }

  ghost predicate DistinctSources(routes: seq<Route>) {
    forall i, j | 0 <= i < j < |routes| :: routes[i].source != routes[j].source
  }

  /** main hands the routes of a group, in order, to the one capture loop of its socket. */
  function RoutesOf(members: seq<Member>): seq<Route> {
    seq(|members|, i requires 0 <= i < |members| => members[i].route)
  }

  ghost predicate IdsAscend(members: seq<Member>) {
    forall i, j | 0 <= i < j < |members| :: members[i].route.source < members[j].route.source
  }

  lemma {:induction false} FilterAscends(members: seq<Member>, p: Member -> bool)
    requires IdsAscend(members)
    ensures IdsAscend(Filter(members, p))
  {
    if members == [] {
    } else {
      FilterAscends(Front(members), p);
      forall m | m in Filter(Front(members), p) ensures m.route.source < Last(members).route.source {
        FilterMembers(Front(members), p, m);
      }
    }
  }

  /** No capture loop has two routes to one source. */
  lemma RoutesDistinct(cfgs: seq<PcapConfig>, firstId: nat, groups: map<GroupKey, seq<Member>>)
    requires firstId + |cfgs| <= 0xffff_ffff
    requires GroupedBy(groups, Members(cfgs, firstId))
    ensures forall key | key in groups :: DistinctSources(RoutesOf(groups[key]))
  {
    IdsCountUp(cfgs, firstId);
    forall key | key in groups ensures DistinctSources(RoutesOf(groups[key])) {
      FilterAscends(Members(cfgs, firstId), InGroup(key));
    }
  }
}
