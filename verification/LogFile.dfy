/** src/output/logfile.rs and the part of plot.py that counts first arrivals:
    one log line per shred, and its agreement with the statistics. */
module LogFile {
  import opened Bytes
  import opened Sequences
  import opened Shred
  import opened Registry
  import opened Stats
  import Replay
  import TableFormat
  import opened Wins

  /** `source` is what is written; `id` is the source it names. */
  datatype ArrivalEntry = ArrivalEntry(id: SourceId, source: string, delta: u64)

  datatype ShredLogEntry = ShredLogEntry(slot: u64, index: u32, shredType: ShredType, firstSource: string,
                                         firstSeenNs: u64, arrivals: seq<ArrivalEntry>)

  type Names = map<SourceId, string>

  function NameOf(names: Names, id: SourceId): string {
    if id in names then names[id] else "source_" + TableFormat.Decimal(id)
  }

  /** A source goes by its configured name, or else by "source_" and the digits
      of its id, so that sources without a name never share one. */
  lemma NamesAsConfigured(names: Names, id: SourceId, other: SourceId)
    ensures id in names ==> NameOf(names, id) == names[id]
    ensures id !in names ==>
              exists digits :: NameOf(names, id) == "source_" + digits
                               && TableFormat.ReadDecimal(digits) == id
                               && (forall c | c in digits :: TableFormat.IsDigit(c))
                               && digits != [] && (digits[0] == '0' ==> digits == "0")
    ensures id !in names && other !in names && NameOf(names, id) == NameOf(names, other) ==> id == other
  {
    var prefix := "source_";
    TableFormat.DecimalReads(id);
    TableFormat.DecimalShape(id);
    TableFormat.DecimalReads(other);
    assert (prefix + TableFormat.Decimal(id))[|prefix|..] == TableFormat.Decimal(id);
    assert (prefix + TableFormat.Decimal(other))[|prefix|..] == TableFormat.Decimal(other);
  }

  function Of(id: SourceId): ArrivalEntry -> bool {
    (a: ArrivalEntry) => a.id == id
  }

  function DeltaKey(a: ArrivalEntry): int {
    a.delta
  }

  /** Exactly one arrival for each source that delivered the shred, none for any other. */
  ghost predicate OneArrivalPerSource(arrivals: seq<ArrivalEntry>, rec: ShredRecord, names: Names) {
    && (forall id: SourceId :: CountIf(arrivals, Of(id)) == if Has(rec, id) then 1 else 0)
    && (forall a | a in arrivals :: Has(rec, a.id) && a.delta == Delta(rec, a.id) && a.source == NameOf(names, a.id))
  }

  ghost predicate LineFor(line: ShredLogEntry, e: Entry, start: Instant, names: Names) {
    && line.slot == e.key.slot && line.index == e.key.index && line.shredType == e.key.shredType
    && line.firstSource == NameOf(names, e.rec.firstSource)
    && line.firstSeenNs == AsU64(SaturatingSub(e.rec.firstSeen, start))
    && SortedBy(line.arrivals, DeltaKey)
    && OneArrivalPerSource(line.arrivals, e.rec, names)
  }

  // ---- write_log ----

  function Lookup(m: map<SourceId, Instant>, id: SourceId): Option<Instant> {
    if id in m then Some(m[id]) else None
  }

  /** The fold over the arrivals: the earliest time of each source. */
  method EarliestBySource(arrivals: seq<Arrival>) returns (bySource: map<SourceId, Instant>)
    ensures forall id: SourceId :: Lookup(bySource, id) == Earliest(TimesFrom(arrivals, id))
  {
    bySource := map[];
    for i := 0 to |arrivals|
      invariant forall id: SourceId :: Lookup(bySource, id) == Earliest(TimesFrom(arrivals[..i], id))
    {
      var src, t := arrivals[i].source, arrivals[i].at;
      assert arrivals[..i + 1] == arrivals[..i] + [arrivals[i]];
      Snoc(arrivals[..i], arrivals[i]);
      assert Lookup(bySource, src) == Earliest(TimesFrom(arrivals[..i], src));
      MinOfSnoc(TimesFrom(arrivals[..i], src), t);
      if src in bySource {
        if t < bySource[src] {
          bySource := bySource[src := t];
        }
      } else {
        bySource := bySource[src := t];
      }
    }
    assert arrivals[..|arrivals|] == arrivals;
  }

  /** The sources in the order in which the map yields them, which is any order. */
  method Collect(bySource: map<SourceId, Instant>, rec: ShredRecord, names: Names) returns (arrivals: seq<ArrivalEntry>)
    requires forall id: SourceId :: Lookup(bySource, id) == Earliest(TimesFrom(rec.arrivals, id))
    ensures OneArrivalPerSource(arrivals, rec, names)
  {
    arrivals := [];
    var left := bySource.Keys;
    while left != {}
      invariant left <= bySource.Keys
      invariant forall id: SourceId ::
                  CountIf(arrivals, Of(id)) == if id in bySource && id !in left then 1 else 0
      invariant forall a | a in arrivals ::
                  Has(rec, a.id) && a.delta == Delta(rec, a.id) && a.source == NameOf(names, a.id)
    {
      var src :| src in left;
      assert Lookup(bySource, src) == Earliest(TimesFrom(rec.arrivals, src));
      var entry := ArrivalEntry(src, NameOf(names, src), AsU64(SaturatingSub(bySource[src], rec.firstSeen)));
      forall id: SourceId
        ensures CountIf(arrivals + [entry], Of(id)) == CountIf(arrivals, Of(id)) + if id == src then 1 else 0
      {
        CountIfSnoc(arrivals, entry, Of(id));
      }
      arrivals := arrivals + [entry];
      left := left - {src};
    }
    forall id: SourceId ensures id in bySource <==> Has(rec, id) {
      assert Lookup(bySource, id) == Earliest(TimesFrom(rec.arrivals, id));
    }
  }

  method WriteLog(entries: seq<Entry>, start: Instant, names: Names) returns (lines: seq<ShredLogEntry>)
    ensures |lines| == |entries|
    ensures forall i | 0 <= i < |lines| :: LineFor(lines[i], entries[i], start, names)
  {
    lines := [];
    for i := 0 to |entries|
      invariant |lines| == i
      invariant forall l | 0 <= l < i :: LineFor(lines[l], entries[l], start, names)
    {
      var key, rec := entries[i].key, entries[i].rec;
      var bySource := EarliestBySource(rec.arrivals);
      var collected := Collect(bySource, rec, names);
      var arrivals := SortBy(collected, DeltaKey);
      forall id: SourceId ensures CountIf(arrivals, Of(id)) == CountIf(collected, Of(id)) {
        CountIfBag(arrivals, collected, Of(id));
      }
      SameElements(arrivals, collected);
      lines := lines + [ShredLogEntry(key.slot, key.index, key.shredType, NameOf(names, rec.firstSource),
                                      AsU64(SaturatingSub(rec.firstSeen, start)), arrivals)];
    }
  }

  // ---- The log and the statistics agree ----

  ghost predicate LogOf(lines: seq<ShredLogEntry>, entries: seq<Entry>, start: Instant, names: Names) {
    && |lines| == |entries|
    && forall i | 0 <= i < |lines| :: LineFor(lines[i], entries[i], start, names)
  }

  function Mentions(id: SourceId): ShredLogEntry -> bool {
    (line: ShredLogEntry) => CountIf(line.arrivals, Of(id)) > 0
  }

  function DeltasOf(arrivals: seq<ArrivalEntry>, id: SourceId): seq<u64> {
    if arrivals == [] then []
    else if Last(arrivals).id == id then DeltasOf(Front(arrivals), id) + [Last(arrivals).delta]
    else DeltasOf(Front(arrivals), id)
  }

  function LoggedDeltas(lines: seq<ShredLogEntry>, id: SourceId): seq<u64> {
    if lines == [] then [] else LoggedDeltas(Front(lines), id) + DeltasOf(Last(lines).arrivals, id)
  }

  lemma {:induction false} DeltasOfArrivals(arrivals: seq<ArrivalEntry>, id: SourceId, delta: u64)
    requires forall a | a in arrivals && a.id == id :: a.delta == delta
    ensures |DeltasOf(arrivals, id)| == CountIf(arrivals, Of(id))
    ensures forall x | x in DeltasOf(arrivals, id) :: x == delta
  {
    if arrivals == [] {
    } else {
      assert arrivals == Front(arrivals) + [Last(arrivals)];
      DeltasOfArrivals(Front(arrivals), id, delta);
    }
  }

  lemma LineDeltas(arrivals: seq<ArrivalEntry>, rec: ShredRecord, names: Names, id: SourceId)
    requires OneArrivalPerSource(arrivals, rec, names)
    ensures DeltasOf(arrivals, id) == if Has(rec, id) then [Delta(rec, id)] else []
    ensures CountIf(arrivals, Of(id)) == if Has(rec, id) then 1 else 0
  {
    DeltasOfArrivals(arrivals, id, if Has(rec, id) then Delta(rec, id) else 0);
    if Has(rec, id) {
      assert DeltasOf(arrivals, id)[0] in DeltasOf(arrivals, id);
    }
  }

  lemma {:induction false} LogInFileOrder(lines: seq<ShredLogEntry>, entries: seq<Entry>, start: Instant,
                                          names: Names, id: SourceId)
    requires LogOf(lines, entries, start, names)
    ensures LoggedDeltas(lines, id) == Latencies(entries, id)
    ensures CountIf(lines, Mentions(id)) == CountIf(entries, ReceivedFrom(id))
  {
    if lines == [] {
    } else {
      LogInFileOrder(Front(lines), Front(entries), start, names, id);
      var line, e := Last(lines), Last(entries);
      LineDeltas(line.arrivals, e.rec, names, id);
    }
  }

  /** However each of them enumerates the table: a source is on as many log
      lines as it received shreds, and the logged deltas are its latencies. */
  lemma LogAgreesWithStats(lines: seq<ShredLogEntry>, logged: seq<Entry>, start: Instant, names: Names,
                           counted: seq<Entry>, m: map<ShredKey, ShredRecord>, id: SourceId, st: SourceStats)
    requires LogOf(lines, logged, start, names) && Enumerates(logged, m)
    requires Tallies(st, counted, id) && Enumerates(counted, m)
    ensures CountIf(lines, Mentions(id)) == st.received
    ensures multiset(LoggedDeltas(lines, id)) == multiset(st.latency)
    ensures |lines| == st.received + st.missed
  {
    LogInFileOrder(lines, logged, start, names, id);
    Replay.EnumerationIrrelevant(logged, counted, m, id);
    assert |multiset(Latencies(logged, id))| == |Latencies(logged, id)|;
    assert |multiset(st.latency)| == |st.latency|;
    CountsAdd(logged, id);
    CountsAdd(counted, id);
  }

  // ---- plot.py: first arrivals per slot and source name ----

  function FirstIs(slot: u64, name: string): ShredLogEntry -> bool {
    (line: ShredLogEntry) => line.slot == slot && line.firstSource == name
  }

  function FirstNamed(name: string): ShredLogEntry -> bool {
    (line: ShredLogEntry) => line.firstSource == name
  }

  type SlotWins = map<u64, map<string, nat>>

  function SlotWinsAt(wins: SlotWins, slot: u64, name: string): nat {
    if slot in wins && name in wins[slot] then wins[slot][name] else 0
  }

  ghost predicate SlotWinsExact(wins: SlotWins, lines: seq<ShredLogEntry>) {
    && (forall slot: u64, name: string :: SlotWinsAt(wins, slot, name) == CountIf(lines, FirstIs(slot, name)))
    && (forall line | line in lines :: line.slot in wins)
    && (forall slot | slot in wins :: exists line :: line in lines && line.slot == slot)
  }

  /** slot_wins[slot][first_source] += 1 */
  method AddWin(before: SlotWins, line: ShredLogEntry, ghost seen: seq<ShredLogEntry>) returns (wins: SlotWins)
    requires SlotWinsExact(before, seen)
    ensures SlotWinsExact(wins, seen + [line])
  {
    var slot, first := line.slot, line.firstSource;
    var inner := if slot in before then before[slot] else map[];
    wins := before[slot := inner[first := (if first in inner then inner[first] else 0) + 1]];
    forall s: u64, name: string ensures SlotWinsAt(wins, s, name) == CountIf(seen + [line], FirstIs(s, name)) {
      assert SlotWinsAt(before, s, name) == CountIf(seen, FirstIs(s, name));
      CountIfSnoc(seen, line, FirstIs(s, name));
    }
    forall s | s in wins ensures exists l :: l in seen + [line] && l.slot == s {
      if s == slot {
        assert line in seen + [line];
      } else {
        var l :| l in seen && l.slot == s;
        assert l in seen + [line];
      }
    }
  }

  /** The accumulation into nested default dictionaries. */
  method CountSlotWins(lines: seq<ShredLogEntry>) returns (wins: SlotWins)
    ensures SlotWinsExact(wins, lines)
  {
    wins := map[];
    for i := 0 to |lines|
      invariant SlotWinsExact(wins, lines[..i])
    {
      assert lines[..i + 1] == lines[..i] + [lines[i]];
      wins := AddWin(wins, lines[i], lines[..i]);
    }
    assert lines[..|lines|] == lines;
  }

  // ---- plot.py's first arrivals and the wins ----

  function FirstFromNamed(names: Names, name: string): Entry -> bool {
    (e: Entry) => NameOf(names, e.rec.firstSource) == name
  }

  function InSlotFirstFromNamed(names: Names, slot: u64, name: string): Entry -> bool {
    (e: Entry) => e.key.slot == slot && NameOf(names, e.rec.firstSource) == name
  }

  /** A bar counts the shreds whose first recorded source goes by its name. */
  lemma {:induction false} BarsCountFirsts(lines: seq<ShredLogEntry>, entries: seq<Entry>, start: Instant,
                                           names: Names, name: string, slot: u64)
    requires LogOf(lines, entries, start, names)
    ensures CountIf(lines, FirstNamed(name)) == CountIf(entries, FirstFromNamed(names, name))
    ensures CountIf(lines, FirstIs(slot, name)) == CountIf(entries, InSlotFirstFromNamed(names, slot, name))
  {
    if lines == [] {
    } else {
      BarsCountFirsts(Front(lines), Front(entries), start, names, name, slot);
      assert LineFor(Last(lines), Last(entries), start, names);
    }
  }

  function OfKeySlot(slot: u64): Entry -> bool {
    (e: Entry) => e.key.slot == slot
  }

  lemma {:induction false} CountWithin(entries: seq<Entry>, slot: u64, names: Names, name: string)
    ensures CountIf(entries, InSlotFirstFromNamed(names, slot, name))
            == CountIf(Filter(entries, OfKeySlot(slot)), FirstFromNamed(names, name))
  {
    if entries == [] {
    } else {
      CountWithin(Front(entries), slot, names, name);
      if Last(entries).key.slot == slot {
        CountIfSnoc(Filter(Front(entries), OfKeySlot(slot)), Last(entries), FirstFromNamed(names, name));
      }
    }
  }

  /** For every name and any list of ids that has each first source so named:
      the name is never shown more first arrivals in a slot than those sources
      won shreds of that slot, nor more in total than they won. */
  lemma PlotWithinWins(lines: seq<ShredLogEntry>, entries: seq<Entry>, start: Instant, names: Names,
                       m: map<ShredKey, ShredRecord>, h: seq<Event>, name: string, ids: seq<SourceId>, slot: u64)
    requires LogOf(lines, entries, start, names) && Enumerates(entries, m) && ShredsExact(m, h)
    requires forall e | e in entries && NameOf(names, e.rec.firstSource) == name :: e.rec.firstSource in ids
    ensures CountIf(lines, FirstNamed(name)) <= SumOf(ids, WinsIn(entries))
    ensures CountIf(lines, FirstIs(slot, name)) <= SumOf(ids, WinsIn(Filter(entries, OfKeySlot(slot))))
  {
    var inSlot := Filter(entries, OfKeySlot(slot));
    TableRecorded(m, h, entries);
    BarsCountFirsts(lines, entries, start, names, name, slot);
    FirstsWithinWins(entries, FirstFromNamed(names, name), ids);
    CountWithin(entries, slot, names, name);
    forall e | e in inSlot ensures e in entries { FilterMembers(entries, OfKeySlot(slot), e); }
    FirstsWithinWins(inSlot, FirstFromNamed(names, name), ids);
  }

  /** A source that no other one recorded first shares its name with is never shown more first arrivals than it won. */
  lemma OwnNameWithinWins(lines: seq<ShredLogEntry>, entries: seq<Entry>, start: Instant, names: Names,
                          m: map<ShredKey, ShredRecord>, h: seq<Event>, id: SourceId, slot: u64)
    requires LogOf(lines, entries, start, names) && Enumerates(entries, m) && ShredsExact(m, h)
    requires forall e | e in entries && NameOf(names, e.rec.firstSource) == NameOf(names, id) :: e.rec.firstSource == id
    ensures CountIf(lines, FirstNamed(NameOf(names, id))) <= CountIf(entries, WonBy(id))
    ensures CountIf(lines, FirstIs(slot, NameOf(names, id))) <= CountIf(Filter(entries, OfKeySlot(slot)), WonBy(id))
  {
    PlotWithinWins(lines, entries, start, names, m, h, NameOf(names, id), [id], slot);
    SumOfSnoc([], id, WinsIn(entries));
    SumOfSnoc([], id, WinsIn(Filter(entries, OfKeySlot(slot))));
    assert [] + [id] == [id];
  }

  /** Two sources that are configured with one name share its bar: each won one
      shred, and the name is shown two first arrivals. */
  lemma SharedNameExceedsWins(k: ShredKey, l: ShredKey)
    requires k != l
    ensures var names: Names := map[1 := "a", 2 := "a"];
            var entries := [Entry(k, ShredRecord(5, 1, [Arrival(1, 5)])), Entry(l, ShredRecord(6, 2, [Arrival(2, 6)]))];
            && AllRecorded(entries)
            && CountIf(entries, WonBy(1)) == 1 && CountIf(entries, WonBy(2)) == 1
            && forall lines, start | LogOf(lines, entries, start, names) :: CountIf(lines, FirstNamed("a")) == 2
  {
    var names: Names := map[1 := "a", 2 := "a"];
    var first, second := Entry(k, ShredRecord(5, 1, [Arrival(1, 5)])), Entry(l, ShredRecord(6, 2, [Arrival(2, 6)]));
    var entries := [first, second];
    assert entries == ([] + [first]) + [second];
    forall p: Entry -> bool
      ensures CountIf(entries, p) == (if p(first) then 1 else 0) + if p(second) then 1 else 0
    {
      CountIfSnoc([] + [first], second, p);
      CountIfSnoc([], first, p);
    }
    TimesFromMembers(first.rec.arrivals, 2, 5);
    FirstSourceWins(first.rec);
    FirstSourceWins(second.rec);
    assert !Has(first.rec, 2) && !Has(second.rec, 1);
    forall lines, start | LogOf(lines, entries, start, names) ensures CountIf(lines, FirstNamed("a")) == 2 {
      BarsCountFirsts(lines, entries, start, names, "a", 0);
    }
  }

  lemma OneArrival(names: Names, other: SourceId, rec: ShredRecord, entry: ArrivalEntry)
    requires rec == ShredRecord(0, other, [Arrival(other, 0)]) && entry == ArrivalEntry(other, NameOf(names, other), 0)
    ensures OneArrivalPerSource([entry], rec, names)
    ensures forall id :: Has(rec, id) <==> id == other
  {
    forall id: SourceId ensures TimesFrom(rec.arrivals, id) == if id == other then [0] else [] {
      assert rec.arrivals == [] + rec.arrivals;
      Snoc([], Arrival(other, 0));
    }
    forall id: SourceId ensures CountIf([entry], Of(id)) == if id == other then 1 else 0 {
      assert [entry] == [] + [entry];
      CountIfSnoc([], entry, Of(id));
    }
  }

  /** A table of one shred that one source sent, and its log. */
  lemma OneShredLog(names: Names, other: SourceId, k: ShredKey)
    returns (h: seq<Event>, m: map<ShredKey, ShredRecord>, entries: seq<Entry>, lines: seq<ShredLogEntry>)
    ensures ShredsExact(m, h) && Enumerates(entries, m) && LogOf(lines, entries, 0, names)
    ensures CountIf(lines, FirstNamed(NameOf(names, other))) == 1
    ensures forall id | id != other :: CountIf(entries, WonBy(id)) == 0
  {
    var a := Arrival(other, 0);
    var rec := ShredRecord(0, other, [a]);
    h, m, entries := [ShredEvent(other, k, 0)], map[k := rec], [Entry(k, rec)];
    forall k' ensures Arrivals(h, k') == if k' == k then [a] else [] {
      ArrivalsOfOne(h[0], k');
    }
    var entry := ArrivalEntry(other, NameOf(names, other), 0);
    lines := [ShredLogEntry(k.slot, k.index, k.shredType, NameOf(names, other), 0, [entry])];
    OneArrival(names, other, rec, entry);
    forall p: ShredLogEntry -> bool ensures CountIf(lines, p) == if p(lines[0]) then 1 else 0 {
      assert lines == [] + lines;
      CountIfSnoc([], lines[0], p);
    }
    forall id | id != other ensures CountIf(entries, WonBy(id)) == 0 {
      assert entries == [] + entries;
      CountIfSnoc([], entries[0], WonBy(id));
    }
  }

  /** No other source goes by its name: a condition on the configured names. */
  ghost predicate OwnName(names: Names, id: SourceId) {
    forall other: SourceId | NameOf(names, other) == NameOf(names, id) :: other == id
  }

  ghost predicate WithinItsWins(lines: seq<ShredLogEntry>, entries: seq<Entry>, names: Names, id: SourceId) {
    CountIf(lines, FirstNamed(NameOf(names, id))) <= CountIf(entries, WonBy(id))
  }

  /** A source is never shown more first arrivals than it won, in the log of any
      table, exactly when no other source goes by its name. */
  lemma OwnNameExactly(names: Names, id: SourceId)
    ensures (forall lines, entries, start, m, h |
               LogOf(lines, entries, start, names) && Enumerates(entries, m) && ShredsExact(m, h) ::
               WithinItsWins(lines, entries, names, id))
       <==> OwnName(names, id)
  {
    if OwnName(names, id) {
      forall lines, entries, start, m, h |
        LogOf(lines, entries, start, names) && Enumerates(entries, m) && ShredsExact(m, h)
        ensures WithinItsWins(lines, entries, names, id)
      {
        OwnNameWithinWins(lines, entries, start, names, m, h, id, 0);
      }
    } else {
      var other: SourceId :| NameOf(names, other) == NameOf(names, id) && other != id;
      var h, m, entries, lines := OneShredLog(names, other, ShredKey(1, 0, Data));
      assert !WithinItsWins(lines, entries, names, id);
    }
  }

  function InSlot(name: string, lines: seq<ShredLogEntry>): u64 -> nat {
    (slot: u64) => CountIf(lines, FirstIs(slot, name))
  }

  function Is(slot: u64): u64 -> bool {
    (s: u64) => s == slot
  }

  lemma {:induction false} InSlotSnoc(slots: seq<u64>, name: string, lines: seq<ShredLogEntry>, line: ShredLogEntry)
    ensures SumOf(slots, InSlot(name, lines + [line]))
            == SumOf(slots, InSlot(name, lines)) + if line.firstSource == name then CountIf(slots, Is(line.slot)) else 0
  {
    if slots == [] {
    } else {
      InSlotSnoc(Front(slots), name, lines, line);
      CountIfSnoc(lines, line, FirstIs(Last(slots), name));
    }
  }

  lemma {:induction false} OccursOnce(slots: seq<u64>, slot: u64)
    requires Distinct(slots)
    ensures CountIf(slots, Is(slot)) == if slot in slots then 1 else 0
  {
    if slots == [] {
    } else {
      OccursOnce(Front(slots), slot);
      assert slots == Front(slots) + [Last(slots)];
    }
  }

  lemma {:induction false} NoBars(slots: seq<u64>, name: string)
    ensures SumOf(slots, InSlot(name, [])) == 0
  {
    if slots == [] {
    } else {
      NoBars(Front(slots), name);
    }
  }

  /** The bars of a source, one per slot of the plot, add up to the lines that name it first. */
  lemma {:induction false} BarsAddUp(slots: seq<u64>, name: string, lines: seq<ShredLogEntry>)
    requires Distinct(slots) && forall line | line in lines :: line.slot in slots
    ensures SumOf(slots, InSlot(name, lines)) == CountIf(lines, FirstNamed(name))
  {
    if lines == [] {
      NoBars(slots, name);
    } else {
      var before, line := Front(lines), Last(lines);
      assert lines == before + [line];
      BarsAddUp(slots, name, before);
      InSlotSnoc(slots, name, before, line);
      OccursOnce(slots, line.slot);
    }
  }
}
