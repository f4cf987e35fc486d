/** What the usage ledger conserves over every sequence of deliveries
    (docker/openlia_usage.py). */
module UsageConservation {
  import opened Wrappers
  import opened UsageLedger

  // ------------------------------------------------------------------ totals

  /** The sum of kind `k` over all events booked for `key`. */
  function Booked(events: seq<Event>, key: Key, k: Kind): nat {
    if events == [] then 0
    else
      var rest := Booked(events[..|events| - 1], key, k);
      var last := events[|events| - 1];
      if last.id.CounterId? && last.id.key == key then rest + At(last.amounts, k) else rest
  }

  function HighOf(l: Ledger, key: Key): Counters {
    if key in l.checkpoints then l.checkpoints[key] else map[]
  }

  /** A delivery that an import accepts: a report must name its activity. */
  predicate Accepted(d: Delivery) {
    d.FromReport? ==> d.report.activity.Some?
  }

  /** What a delivery shows of kind `k`: the number it came with, if positive. */
  function Shown(d: Delivery, k: Kind): nat {
    var raw := if d.FromHermes? then d.row.values else d.report.values;
    if k in raw && raw[k] > 0 then raw[k] else 0
  }

  lemma CountersShow(d: Delivery, k: Kind)
    ensures At(CountersOf(d), k) == Shown(d, k)
  {
  }

  /** The largest value of kind `k` that an accepted delivery to `key` showed: an
      account of what must be booked that never looks at a ledger. */
  function Largest(ds: seq<Delivery>, key: Key, k: Kind): nat {
    if ds == [] then 0
    else
      var rest := Largest(ds[..|ds| - 1], key, k);
      var last := ds[|ds| - 1];
      if KeyOf(last) == Some(key) && Accepted(last) && Shown(last, k) > rest then Shown(last, k) else rest
  }

  /** What one delivery adds to the checkpoint of `key` without an event: the
      checkpoint of an earlier release, the first sight of a row that an earlier
      release recorded itself, and the estimated cost of an unpriced row. */
  function UnbookedBy(l: Ledger, d: Delivery, key: Key, k: Kind): nat {
    if d.FromHermes? && KeyOf(d) == Some(key) then
      var known := Previous(l.checkpoints, d.row.identity);
      var current := At(CountersOf(d), k);
      if OnlyRemembered(d.row, known, d.meta) then current
      else
        var previous := At(CountersOr(known), k);
        (if key in l.checkpoints then 0 else previous)
        + (if k == Cost && !d.row.priced then Excess(current, previous) else 0)
    else 0
  }

  function Unbooked(l: Ledger, ds: seq<Delivery>, key: Key, k: Kind, hash: Hash): nat {
    if ds == [] then 0
    else
      var before := ds[..|ds| - 1];
      Unbooked(l, before, key, k, hash) + UnbookedBy(DeliverAll(l, before, hash), ds[|ds| - 1], key, k)
  }

  // -------------------------------------------------------------- invariants

  ghost predicate AtMost(a: Counters, b: Counters) {
    forall k: Kind :: At(a, k) <= At(b, k)
  }

  /** No two events share an id, and every counter event carries a high-water
      mark that its key has reached. */
  ghost predicate Consistent(l: Ledger) {
    && (forall e <- l.events | e.id.CounterId? ::
          e.id.key in l.checkpoints && AtMost(e.id.high, l.checkpoints[e.id.key]))
    && forall i, j | 0 <= i < j < |l.events| :: l.events[i].id != l.events[j].id
  }

  /** A mark that grows is new, so its event cannot be ignored. */
  lemma GrowthIsNew(l: Ledger, key: Key, current: Counters, previous: Counters)
    requires Consistent(l)
    requires key in l.checkpoints ==> previous == l.checkpoints[key]
    requires Grows(current, previous)
    ensures forall e <- l.events :: e.id != CounterId(key, HighWater(current, previous))
  {
    var k :| At(current, k) > At(previous, k);
    forall e <- l.events | e.id.CounterId? && e.id.key == key
      ensures e.id.high != HighWater(current, previous)
    {
      assert At(e.id.high, k) <= At(previous, k) < At(HighWater(current, previous), k);
    }
  }

  lemma HighWaterAt(current: Counters, previous: Counters)
    ensures forall k: Kind :: At(HighWater(current, previous), k) ==
              if At(current, k) >= At(previous, k) then At(current, k) else At(previous, k)
  {
  }

  /** Raising one checkpoint and inserting an event at or below it is safe. */
  lemma RaiseKeepsConsistent(l: Ledger, key: Key, high: Counters, e: Event)
    requires Consistent(l)
    requires key in l.checkpoints ==> AtMost(l.checkpoints[key], high)
    requires e.id.CounterId? ==> e.id.key == key && e.id.high == high
    ensures Consistent(Ledger(Insert(l.events, e), l.checkpoints[key := high]))
    ensures Consistent(Ledger(l.events, l.checkpoints[key := high]))
  {
    forall f <- l.events + [e] | f.id.CounterId?
      ensures f.id.key in l.checkpoints[key := high] && AtMost(f.id.high, l.checkpoints[key := high][f.id.key])
    {
    }
  }

  lemma DeliverKeepsConsistent(l: Ledger, d: Delivery, hash: Hash)
    requires Consistent(l)
    ensures Consistent(Deliver(l, d, hash))
  {
    match d {
      case FromHermes(row, meta) =>
        var known := Previous(l.checkpoints, row.identity);
        HighWaterAt(Clipped(row.values), CountersOr(known));
        RaiseKeepsConsistent(l, KeyOfSource(row.identity), HighWater(Clipped(row.values), CountersOr(known)),
                             RowEvent(row, meta, known, hash));
      case FromReport(r) =>
        if r.activity.Some? && !r.cumulative {
          InsertKeepsConsistent(l, SingleEvent(r, r.activity.value));
        } else if r.cumulative {
          var previous := HighOf(l, KeyOfReport(r));
          HighWaterAt(Clipped(r.values), previous);
          RaiseKeepsConsistent(l, KeyOfReport(r), HighWater(Clipped(r.values), previous),
                               CumulativeEvent(
                                 r, if r.activity.Some? then r.activity.value else Hermes, previous, hash));
        }
    }
  }

  lemma InsertKeepsConsistent(l: Ledger, e: Event)
    requires Consistent(l) && e.id.PlainId?
    ensures Consistent(l.(events := Insert(l.events, e)))
  {
  }

  lemma {:induction false} DeliverAllKeepsConsistent(l: Ledger, ds: seq<Delivery>, hash: Hash)
    requires Consistent(l)
    ensures Consistent(DeliverAll(l, ds, hash))
  {
    if ds != [] {
      DeliverAllKeepsConsistent(l, ds[..|ds| - 1], hash);
      DeliverKeepsConsistent(DeliverAll(l, ds[..|ds| - 1], hash), ds[|ds| - 1], hash);
    }
  }

  // ------------------------------------------------------------ conservation

  lemma BookedAfterInsert(events: seq<Event>, e: Event, key: Key, k: Kind)
    ensures e.id.CounterId? && e.id.key == key && (forall f <- events :: f.id != e.id) ==>
              Booked(Insert(events, e), key, k) == Booked(events, key, k) + At(e.amounts, k)
    ensures e.id.PlainId? || e.id.key != key ==> Booked(Insert(events, e), key, k) == Booked(events, key, k)
  {
    assert (events + [e])[..|events|] == events;
    assert forall i | 0 <= i < |events| :: events[i] in events;
  }

  /** The recorded increase lifts the previous counters to the new mark. */
  lemma IncreaseFills(current: Counters, previous: Counters, costGiven: bool, providerCostGiven: bool, k: Kind)
    requires k == ProviderCost && !providerCostGiven ==> At(current, k) == 0
    ensures At(previous, k) + At(Increase(current, previous, costGiven, providerCostGiven), k)
              + (if k == Cost && !costGiven then Excess(At(current, k), At(previous, k)) else 0)
         == At(HighWater(current, previous), k)
  {
  }

  /** A row books its event exactly when it is not only remembered and grows. */
  lemma RowBooks(l: Ledger, row: Row, meta: Meta, k: Kind, hash: Hash)
    requires Consistent(l)
    ensures var known := Previous(l.checkpoints, row.identity);
      Booked(BookRow(l, row, meta, hash).events, KeyOfSource(row.identity), k)
      == Booked(l.events, KeyOfSource(row.identity), k)
         + if !OnlyRemembered(row, known, meta) && Grows(Clipped(row.values), CountersOr(known))
           then At(RowEvent(row, meta, known, hash).amounts, k) else 0
  {
    var key, known, current := KeyOfSource(row.identity), Previous(l.checkpoints, row.identity), Clipped(row.values);
    if !OnlyRemembered(row, known, meta) && Grows(current, CountersOr(known)) {
      GrowthIsNew(l, key, current, CountersOr(known));
      BookedAfterInsert(l.events, RowEvent(row, meta, known, hash), key, k);
    }
  }

  lemma RowRaises(l: Ledger, row: Row, meta: Meta, k: Kind, hash: Hash)
    ensures var current, previous := Clipped(row.values), CountersOr(Previous(l.checkpoints, row.identity));
      At(HighOf(BookRow(l, row, meta, hash), KeyOfSource(row.identity)), k)
      == if At(current, k) >= At(previous, k) then At(current, k) else At(previous, k)
  {
    hide Insert, RowEvent, Clipped;
    HighWaterAt(Clipped(row.values), CountersOr(Previous(l.checkpoints, row.identity)));
  }

  lemma RowConserves(l: Ledger, row: Row, meta: Meta, k: Kind, hash: Hash)
    requires Consistent(l)
    ensures var key, after := KeyOfSource(row.identity), BookRow(l, row, meta, hash);
      Booked(after.events, key, k) + At(HighOf(l, key), k) + UnbookedBy(l, FromHermes(row, meta), key, k)
      == Booked(l.events, key, k) + At(HighOf(after, key), k)
  {
    var known, current := Previous(l.checkpoints, row.identity), Clipped(row.values);
    RowBooks(l, row, meta, k, hash);
    RowRaises(l, row, meta, k, hash);
    HighWaterAt(current, CountersOr(known));
    IncreaseFills(current, CountersOr(known), row.priced, ProviderCost in row.values, k);
    hide Booked, Insert, EventIdOf, ActivityOf, BookRow, HighWater, Increase;
    if OnlyRemembered(row, known, meta) {
    } else if Grows(current, CountersOr(known)) {
    } else {
      assert At(current, k) <= At(CountersOr(known), k);
    }
  }

  /** A cumulative report books its event exactly when it grows and names an
      activity; a report that grows without one is an error and changes nothing. */
  lemma ReportBooks(l: Ledger, r: Report, k: Kind, hash: Hash)
    requires Consistent(l) && r.cumulative && IdFits(KeyOfReport(r))
    ensures var key, previous := KeyOfReport(r), HighOf(l, KeyOfReport(r));
      Booked(Deliver(l, FromReport(r), hash).events, key, k)
      == Booked(l.events, key, k)
         + if Grows(Clipped(r.values), previous) && r.activity.Some?
           then At(CumulativeEvent(r, r.activity.value, previous, hash).amounts, k) else 0
  {
    var key, current := KeyOfReport(r), Clipped(r.values);
    if Grows(current, HighOf(l, key)) && r.activity.Some? {
      GrowthIsNew(l, key, current, HighOf(l, key));
      BookedAfterInsert(l.events, CumulativeEvent(r, r.activity.value, HighOf(l, key), hash), key, k);
    }
  }

  /** An accepted report raises the checkpoint to its counters; any other leaves
      its value. */
  lemma ReportRaises(l: Ledger, r: Report, k: Kind, hash: Hash)
    requires r.cumulative
    ensures var previous := HighOf(l, KeyOfReport(r));
      At(HighOf(Deliver(l, FromReport(r), hash), KeyOfReport(r)), k)
      == if r.activity.Some? then At(HighWater(Clipped(r.values), previous), k) else At(previous, k)
  {
    var current, previous := Clipped(r.values), HighOf(l, KeyOfReport(r));
    HighWaterAt(current, previous);
    if !Grows(current, previous) {
      assert At(current, k) <= At(previous, k);
    }
  }

  lemma ReportConserves(l: Ledger, r: Report, k: Kind, hash: Hash)
    requires Consistent(l) && r.cumulative && IdFits(KeyOfReport(r))
    ensures var key := KeyOfReport(r);
      Booked(Deliver(l, FromReport(r), hash).events, key, k) + At(HighOf(l, key), k)
      == Booked(l.events, key, k) + At(HighOf(Deliver(l, FromReport(r), hash), key), k)
  {
    var current, previous := Clipped(r.values), HighOf(l, KeyOfReport(r));
    ReportBooks(l, r, k, hash);
    ReportRaises(l, r, k, hash);
    IncreaseFills(current, previous, Cost in r.values, ProviderCost in r.values, k);
    if !Grows(current, previous) {
      assert At(current, k) <= At(previous, k);
    }
  }

  /** A delivery books nothing for other keys and leaves their checkpoints. */
  lemma OtherKeysUntouched(l: Ledger, d: Delivery, key: Key, k: Kind, hash: Hash)
    requires KeyOf(d) != Some(key)
    ensures Booked(Deliver(l, d, hash).events, key, k) == Booked(l.events, key, k)
    ensures HighOf(Deliver(l, d, hash), key) == HighOf(l, key)
  {
    DeliverInserts(l, d, hash);
    EventOfOther(l, d, key, hash);
    var e := EventOf(l, d, hash);
    hide Deliver, Booked, Insert, EventOf;
    if e.Some? { BookedAfterInsert(l.events, e.value, key, k); }
  }

  /** The event that a delivery books unless its id is taken. */
  function EventOf(l: Ledger, d: Delivery, hash: Hash): Option<Event> {
    match d
    case FromHermes(row, meta) =>
      var known := Previous(l.checkpoints, row.identity);
      if !OnlyRemembered(row, known, meta) && Grows(Clipped(row.values), CountersOr(known))
        then Some(RowEvent(row, meta, known, hash)) else None
    case FromReport(r) =>
      if r.activity.None? then None
      else if !r.cumulative then Some(SingleEvent(r, r.activity.value))
      else if Grows(Clipped(r.values), HighOf(l, KeyOfReport(r)))
        then Some(CumulativeEvent(r, r.activity.value, HighOf(l, KeyOfReport(r)), hash)) else None
  }

  lemma DeliverInserts(l: Ledger, d: Delivery, hash: Hash)
    ensures var e := EventOf(l, d, hash);
      Deliver(l, d, hash).events == if e.Some? then Insert(l.events, e.value) else l.events
  {
    hide Insert, Increase, HighWater, Clipped, Grows, At, Cut;
  }

  lemma EventOfOther(l: Ledger, d: Delivery, key: Key, hash: Hash)
    requires KeyOf(d) != Some(key)
    ensures var e := EventOf(l, d, hash); e.Some? ==> e.value.id.PlainId? || e.value.id.key != key
    ensures HighOf(Deliver(l, d, hash), key) == HighOf(l, key)
  {
    hide Insert, Increase, HighWater, Clipped, Grows, At, Cut;
  }

  /** One delivery: what its event books and what stays unbooked add up to the
      growth of the checkpoint. */
  lemma DeliverConserves(l: Ledger, d: Delivery, key: Key, k: Kind, hash: Hash)
    requires Consistent(l) && IdFits(key)
    ensures Booked(Deliver(l, d, hash).events, key, k) + At(HighOf(l, key), k) + UnbookedBy(l, d, key, k)
         == Booked(l.events, key, k) + At(HighOf(Deliver(l, d, hash), key), k)
  {
    if KeyOf(d) != Some(key) {
      OtherKeysUntouched(l, d, key, k, hash);
    } else {
      match d {
        case FromHermes(row, meta) => RowConserves(l, row, meta, k, hash);
        case FromReport(r) => ReportConserves(l, r, k, hash);
      }
    }
  }

  /** Every run: booked and unbooked amounts together are the checkpoint's
      growth, for every key whose event ids are not cut. */
  lemma {:induction false} ConservationExact(l: Ledger, ds: seq<Delivery>, key: Key, k: Kind, hash: Hash)
    requires Consistent(l) && IdFits(key)
    ensures Booked(DeliverAll(l, ds, hash).events, key, k) + At(HighOf(l, key), k) + Unbooked(l, ds, key, k, hash)
         == Booked(l.events, key, k) + At(HighOf(DeliverAll(l, ds, hash), key), k)
  {
    if ds != [] {
      var before := ds[..|ds| - 1];
      ConservationExact(l, before, key, k, hash);
      DeliverAllKeepsConsistent(l, before, hash);
      DeliverConserves(DeliverAll(l, before, hash), ds[|ds| - 1], key, k, hash);
    }
  }

  // ------------------------------------------------------- what is written down

  /** Two rows count for the same key exactly when all six columns are the same,
      an absent one being the same as an empty one. */
  lemma SameSourceExactly(i: Identity, j: Identity)
    ensures KeyOfSource(i) == KeyOfSource(j)
       <==> && SameColumn(i.session, j.session) && SameColumn(i.model, j.model) && SameColumn(i.provider, j.provider)
            && SameColumn(i.baseUrl, j.baseUrl) && SameColumn(i.mode, j.mode) && SameColumn(i.task, j.task)
  {
  }

  /** Two reports count for the same key exactly when they name the same source, or
      both name none and have the same id. */
  lemma SameReportExactly(r: Report, t: Report)
    ensures KeyOfReport(r) == KeyOfReport(t)
       <==> if r.shared.Some? && t.shared.Some? then KeyOfSource(r.shared.value) == KeyOfSource(t.shared.value)
            else r.shared.None? && t.shared.None? && r.id == t.id
  {
  }

  predicate SameColumn(a: Option<string>, b: Option<string>) {
    a == b || {a, b} == {None, Some("")}
  }

  /** The event of a row that grows: every token kind, the estimated cost if the
      row is priced, the provider's cost if it is given, each by what it grew. */
  lemma RowEventRecords(row: Row, meta: Meta, known: Option<Counters>, hash: Hash, k: Kind)
    ensures var e := RowEvent(row, meta, known, hash);
      && (e.activity == Ingestion <==> row.ingestion)
      && (e.activity == Activity.Migration <==> row.migration && !row.ingestion)
      && (e.historical <==> known == None && row.firstSeen < meta.started)
    ensures var amounts := RowEvent(row, meta, known, hash).amounts;
      && (k in amounts <==> IsToken(k) || (k == Cost && row.priced) || (k == ProviderCost && k in row.values))
      && (k in amounts ==>
            var before := if known.Some? && k in known.value then known.value[k] else 0;
            var shown := Shown(FromHermes(row, meta), k);
            amounts[k] == if shown > before then shown - before else 0)
  {
    CountersShow(FromHermes(row, meta), k);
  }

  /** The same of a report that is not cumulative, with the whole numbers. */
  lemma SingleEventRecords(r: Report, activity: Activity, k: Kind)
    ensures var e := SingleEvent(r, activity);
      && e.activity == activity && e.historical == r.historical
      && (|r.id| <= MAX_ID ==> e.id == PlainId(r.id))
      && (k in e.amounts <==> if IsToken(k) then r.tokensGiven else k in r.values && r.values[k] >= 0)
      && (k in e.amounts ==> e.amounts[k] == Shown(FromReport(r), k))
  {
  }

  /** The event of a cumulative report: every token kind, and each cost that it
      gives, each by what it grew. */
  lemma ReportEventRecords(r: Report, activity: Activity, previous: Counters, hash: Hash, k: Kind)
    ensures var e := CumulativeEvent(r, activity, previous, hash);
      && e.activity == activity && e.historical == r.historical
      && (k in e.amounts <==> IsToken(k) || k in r.values)
      && (k in e.amounts ==>
            var before := if k in previous then previous[k] else 0;
            var shown := Shown(FromReport(r), k);
            e.amounts[k] == if shown > before then shown - before else 0)
  {
    CountersShow(FromReport(r), k);
  }

  // ------------------------------------------------------------ one delivery

  /** Some import has seen the source before, this one or an earlier release. */
  predicate Known(l: Ledger, i: Identity) {
    KeyOfSource(i) in l.checkpoints || LegacyKey(i) in l.checkpoints
  }

  /** The mark of the source, or the one that an earlier release left. */
  function Stored(l: Ledger, i: Identity, k: Kind): nat {
    if KeyOfSource(i) in l.checkpoints then At(l.checkpoints[KeyOfSource(i)], k)
    else if LegacyKey(i) in l.checkpoints then At(l.checkpoints[LegacyKey(i)], k)
    else 0
  }

  /** Every mark of `key` is the larger of what was stored and what `d` shows, and
      no other checkpoint changes. */
  ghost predicate Raises(l: Ledger, after: Ledger, d: Delivery, key: Key, stored: Kind -> nat) {
    && after.checkpoints.Keys == l.checkpoints.Keys + {key}
    && (forall other <- l.checkpoints | other != key :: after.checkpoints[other] == l.checkpoints[other])
    && forall k :: At(after.checkpoints[key], k) == if Shown(d, k) > stored(k) then Shown(d, k) else stored(k)
  }

  ghost predicate ShowsMore(d: Delivery, stored: Kind -> nat) {
    exists k :: Shown(d, k) > stored(k)
  }

  /** `e` is added if it is wanted and its id is new. */
  ghost predicate Adds(l: Ledger, after: Ledger, e: Event, wanted: bool) {
    var isNew := wanted && forall i | 0 <= i < |l.events| :: l.events[i].id != e.id;
    after.events == if isNew then l.events + [e] else l.events
  }

  /** What the delivery of one row does: the marks rise to what it shows, and an
      event is added exactly when some number is larger than its mark and the row
      is not one that an earlier release recorded: of ingestion, never seen, and
      from before ownership began. */
  lemma RowDeliversExactly(l: Ledger, row: Row, meta: Meta, hash: Hash)
    ensures var d := FromHermes(row, meta);
      var after, stored := Deliver(l, d, hash), (k: Kind) => Stored(l, row.identity, k);
      && Raises(l, after, d, KeyOfSource(row.identity), stored)
      && Adds(l, after, RowEvent(row, meta, Previous(l.checkpoints, row.identity), hash),
              ShowsMore(d, stored)
              && !(&& row.ingestion && !Known(l, row.identity)
                   && meta.ownershipSince.Some? && row.firstSeen < meta.ownershipSince.value))
  {
    var d := FromHermes(row, meta);
    var current, previous := Clipped(row.values), CountersOr(Previous(l.checkpoints, row.identity));
    forall k ensures At(current, k) == Shown(d, k) && At(previous, k) == Stored(l, row.identity, k) {
      CountersShow(d, k);
    }
    hide Clipped, Stored, Shown, RowEvent;
  }

  lemma RaisesReport(l: Ledger, after: Ledger, d: Delivery, key: Key, high: Counters)
    requires after.checkpoints == l.checkpoints[key := high]
    requires forall k ::
               At(high, k) == if Shown(d, k) > At(HighOf(l, key), k) then Shown(d, k) else At(HighOf(l, key), k)
    ensures Raises(l, after, d, key, (k: Kind) => At(HighOf(l, key), k))
  {
  }

  lemma AddsReport(l: Ledger, after: Ledger, e: Event, wanted: bool)
    requires after.events == if wanted then Insert(l.events, e) else l.events
    ensures Adds(l, after, e, wanted)
  {
  }

  /** What a cumulative report does: the same for the key that it names, except
      that one that shows more must name its activity, or nothing changes. */
  lemma ReportDeliversExactly(l: Ledger, r: Report, hash: Hash)
    requires r.cumulative
    ensures var d, key := FromReport(r), KeyOfReport(r);
      var after, stored := Deliver(l, d, hash), (k: Kind) => At(HighOf(l, key), k);
      if ShowsMore(d, stored) && r.activity.None? then after == l
      else
        && Raises(l, after, d, key, stored)
        && (r.activity.None? ==> after.events == l.events)
        && (r.activity.Some? ==>
              Adds(l, after, CumulativeEvent(r, r.activity.value, HighOf(l, key), hash), ShowsMore(d, stored)))
  {
    var d, key, current, previous := FromReport(r), KeyOfReport(r), Clipped(r.values), HighOf(l, KeyOfReport(r));
    forall k
      ensures At(current, k) == Shown(d, k)
      ensures At(HighWater(current, previous), k)
           == if Shown(d, k) > At(previous, k) then Shown(d, k) else At(previous, k)
    {
      CountersShow(d, k);
    }
    assert Grows(current, previous) <==> ShowsMore(d, (k: Kind) => At(HighOf(l, key), k));
    hide Clipped, Shown, CumulativeEvent, HighWater, Grows, ShowsMore, At, Adds, Raises;
    var after, stored := Deliver(l, d, hash), (k: Kind) => At(HighOf(l, key), k);
    if !(ShowsMore(d, stored) && r.activity.None?) {
      RaisesReport(l, after, d, key, HighWater(current, previous));
      if r.activity.Some? {
        AddsReport(l, after, CumulativeEvent(r, r.activity.value, previous, hash), ShowsMore(d, stored));
      }
    }
  }

  // ----------------------------------------------------- the ordinary ledger

  ghost predicate NoLegacy(l: Ledger) {
    forall key <- l.checkpoints :: !key.LegacyKey?
  }

  /** A delivery that no earlier release has recorded. */
  predicate FirstHand(d: Delivery) {
    d.FromHermes? ==> !OnlyRemembered(d.row, None, d.meta)
  }

  predicate Priced(d: Delivery) {
    d.FromHermes? ==> d.row.priced
  }

  /** From an empty ledger, the checkpoint of a key is the largest value that
      any accepted delivery to it showed. */
  lemma {:induction false} HighIsLargest(ds: seq<Delivery>, key: Key, k: Kind, hash: Hash)
    ensures At(HighOf(DeliverAll(EMPTY, ds, hash), key), k) == Largest(ds, key, k)
    ensures NoLegacy(DeliverAll(EMPTY, ds, hash))
  {
    hide Booked, Increase, Insert, RowEvent, CumulativeEvent, SingleEvent, HighWater, Clipped, Grows;
    if ds != [] {
      var before, last := ds[..|ds| - 1], ds[|ds| - 1];
      HighIsLargest(before, key, k, hash);
      var l := DeliverAll(EMPTY, before, hash);
      if KeyOf(last) != Some(key) {
        OtherKeysUntouched(l, last, key, k, hash);
      } else {
        CountersShow(last, k);
        HighWaterAt(CountersOf(last), HighOf(l, key));
        match last {
          case FromReport(r) => ReportRaises(l, r, k, hash);
          case FromHermes(row, _) => assert CountersOr(Previous(l.checkpoints, row.identity)) == HighOf(l, key);
        }
      }
    }
  }

  /** From an empty ledger, nothing stays unbooked but unpriced costs. */
  lemma {:induction false} NothingUnbooked(ds: seq<Delivery>, key: Key, k: Kind, hash: Hash)
    requires forall d <- ds | KeyOf(d) == Some(key) :: FirstHand(d) && (k == Cost ==> Priced(d))
    ensures Unbooked(EMPTY, ds, key, k, hash) == 0
  {
    if ds != [] {
      var before := ds[..|ds| - 1];
      NothingUnbooked(before, key, k, hash);
      HighIsLargest(before, key, k, hash);
    }
  }

  /** Conservation: whatever the order, repetition, counter rollback or mixture
      of rows and reports, the booked sum is the largest value ever observed. */
  lemma Conservation(ds: seq<Delivery>, key: Key, k: Kind, hash: Hash)
    requires IdFits(key)
    requires forall d <- ds | KeyOf(d) == Some(key) :: FirstHand(d) && (k == Cost ==> Priced(d))
    ensures Booked(DeliverAll(EMPTY, ds, hash).events, key, k) == Largest(ds, key, k)
  {
    ConservationExact(EMPTY, ds, key, k, hash);
    HighIsLargest(ds, key, k, hash);
    NothingUnbooked(ds, key, k, hash);
  }

  lemma {:induction false} LargestOfSubset(ds: seq<Delivery>, es: seq<Delivery>, key: Key, k: Kind)
    requires forall d <- ds :: d in es
    ensures Largest(ds, key, k) <= Largest(es, key, k)
  {
    if ds != [] {
      LargestOfSubset(ds[..|ds| - 1], es, key, k);
      var last := ds[|ds| - 1];
      if KeyOf(last) == Some(key) && Accepted(last) {
        LargestCovers(es, last, key, k);
      }
    }
  }

  /** It is shown by one of them, or nothing was. */
  lemma {:induction false} LargestIsShown(ds: seq<Delivery>, key: Key, k: Kind)
    ensures Largest(ds, key, k) == 0
         || exists d <- ds :: KeyOf(d) == Some(key) && Accepted(d) && Shown(d, k) == Largest(ds, key, k)
  {
    if ds != [] { LargestIsShown(ds[..|ds| - 1], key, k); }
  }

  /** And no accepted delivery shows more. */
  lemma {:induction false} LargestCovers(ds: seq<Delivery>, d: Delivery, key: Key, k: Kind)
    requires d in ds && KeyOf(d) == Some(key) && Accepted(d)
    ensures Shown(d, k) <= Largest(ds, key, k)
  {
    if d != ds[|ds| - 1] {
      LargestCovers(ds[..|ds| - 1], d, key, k);
    }
  }

  /** Two runs that deliver the same things, in any order and any number of
      times, book the same totals. */
  lemma SameDeliveriesSameTotals(ds: seq<Delivery>, es: seq<Delivery>, key: Key, k: Kind, hash: Hash)
    requires IdFits(key)
    requires forall d :: d in ds <==> d in es
    requires forall d <- ds | KeyOf(d) == Some(key) :: FirstHand(d) && (k == Cost ==> Priced(d))
    ensures Booked(DeliverAll(EMPTY, ds, hash).events, key, k) == Booked(DeliverAll(EMPTY, es, hash).events, key, k)
  {
    Conservation(ds, key, k, hash);
    Conservation(es, key, k, hash);
    LargestOfSubset(ds, es, key, k);
    LargestOfSubset(es, ds, key, k);
  }

  // ------------------------------------------------------------ exactly once

  ghost predicate Covers(l: Ledger, key: Key, c: Counters) {
    key in l.checkpoints && forall k: Kind :: k in l.checkpoints[key] && At(c, k) <= l.checkpoints[key][k]
  }

  ghost predicate Holds(events: seq<Event>, id: EventId) {
    exists i | 0 <= i < |events| :: events[i].id == id
  }

  /** Delivering `d` can no longer change the ledger. */
  ghost predicate Absorbed(l: Ledger, d: Delivery) {
    match d
    case FromHermes(row, _) => Covers(l, KeyOfSource(row.identity), Clipped(row.values))
    case FromReport(r) =>
      if r.cumulative then
        || Covers(l, KeyOfReport(r), Clipped(r.values))
        || (r.activity.None? && Grows(Clipped(r.values), HighOf(l, KeyOfReport(r))))
      else r.activity.None? || Holds(l.events, PlainId(Cut(r.id)))
  }

  lemma MarkCovers(l: Ledger, key: Key, current: Counters, previous: Counters, events: seq<Event>)
    ensures Covers(Ledger(events, l.checkpoints[key := HighWater(current, previous)]), key, current)
    ensures forall c: Counters, other: Key | Covers(l, other, c)
      && (key in l.checkpoints ==> previous == l.checkpoints[key]) ::
              Covers(Ledger(events, l.checkpoints[key := HighWater(current, previous)]), other, c)
  {
    HighWaterAt(current, previous);
    forall k: Kind ensures k in HighWater(current, previous) { }
  }

  lemma InsertHolds(events: seq<Event>, e: Event)
    ensures Holds(Insert(events, e), e.id)
    ensures forall id | Holds(events, id) :: Holds(Insert(events, e), id)
  {
    if !Holds(events, e.id) {
      assert (events + [e])[|events|].id == e.id;
    }
    forall id | Holds(events, id) ensures Holds(events + [e], id) {
      var i :| 0 <= i < |events| && events[i].id == id;
      assert (events + [e])[i].id == id;
    }
  }

  lemma DeliverAbsorbs(l: Ledger, d: Delivery, hash: Hash)
    ensures Absorbed(Deliver(l, d, hash), d)
  {
    match d {
      case FromHermes(row, meta) =>
        MarkCovers(l, KeyOfSource(row.identity), Clipped(row.values),
                   CountersOr(Previous(l.checkpoints, row.identity)), Deliver(l, d, hash).events);
      case FromReport(r) =>
        if r.cumulative {
          MarkCovers(l, KeyOfReport(r), Clipped(r.values), HighOf(l, KeyOfReport(r)), Deliver(l, d, hash).events);
        } else if r.activity.Some? {
          InsertHolds(l.events, SingleEvent(r, r.activity.value));
        }
    }
  }

  lemma EventsStay(l: Ledger, e: Delivery, id: EventId, hash: Hash)
    requires Holds(l.events, id)
    ensures Holds(Deliver(l, e, hash).events, id)
  {
    var after := Deliver(l, e, hash).events;
    if after != l.events {
      assert after == Insert(l.events, after[|l.events|]);
      InsertHolds(l.events, after[|l.events|]);
    }
  }

  lemma CoverStays(l: Ledger, e: Delivery, key: Key, c: Counters, hash: Hash)
    requires Covers(l, key, c)
    ensures Covers(Deliver(l, e, hash), key, c)
  {
    match e {
      case FromHermes(row, meta) =>
        MarkCovers(l, KeyOfSource(row.identity), Clipped(row.values),
                   CountersOr(Previous(l.checkpoints, row.identity)), Deliver(l, e, hash).events);
      case FromReport(r) =>
        MarkCovers(l, KeyOfReport(r), Clipped(r.values), HighOf(l, KeyOfReport(r)), Deliver(l, e, hash).events);
    }
  }

  /** A report without an activity either still grows, and is still an error, or
      its key has been covered by another delivery. */
  lemma ErrorStays(l: Ledger, e: Delivery, r: Report, hash: Hash)
    requires r.cumulative && r.activity.None? && Grows(Clipped(r.values), HighOf(l, KeyOfReport(r)))
    ensures Absorbed(Deliver(l, e, hash), FromReport(r))
  {
    var key, after := KeyOfReport(r), Deliver(l, e, hash);
    if KeyOf(e) != Some(key) {
      OtherKeysUntouched(l, e, key, Input, hash);
    } else if !Grows(Clipped(r.values), HighOf(after, key)) {
      assert after != l;
      assert key in after.checkpoints;
      forall k: Kind ensures k in after.checkpoints[key] && At(Clipped(r.values), k) <= after.checkpoints[key][k] {
        assert At(Clipped(r.values), k) <= At(HighOf(after, key), k);
      }
    }
  }

  lemma AbsorbedStays(l: Ledger, d: Delivery, e: Delivery, hash: Hash)
    requires Absorbed(l, d)
    ensures Absorbed(Deliver(l, e, hash), d)
  {
    match d {
      case FromHermes(row, _) => CoverStays(l, e, KeyOfSource(row.identity), Clipped(row.values), hash);
      case FromReport(r) =>
        if r.cumulative {
          if Covers(l, KeyOfReport(r), Clipped(r.values)) {
            CoverStays(l, e, KeyOfReport(r), Clipped(r.values), hash);
          } else {
            ErrorStays(l, e, r, hash);
          }
        } else if r.activity.Some? {
          EventsStay(l, e, PlainId(Cut(r.id)), hash);
        }
    }
  }

  lemma CoveredChangesNothing(l: Ledger, key: Key, c: Counters)
    requires Covers(l, key, c)
    ensures !Grows(c, l.checkpoints[key]) && l.checkpoints[key := HighWater(c, l.checkpoints[key])] == l.checkpoints
  {
    assert HighWater(c, l.checkpoints[key]) == l.checkpoints[key];
  }

  lemma AbsorbedChangesNothing(l: Ledger, d: Delivery, hash: Hash)
    requires Absorbed(l, d)
    ensures Deliver(l, d, hash) == l
  {
    match d {
      case FromHermes(row, _) => CoveredChangesNothing(l, KeyOfSource(row.identity), Clipped(row.values));
      case FromReport(r) =>
        if r.cumulative && Covers(l, KeyOfReport(r), Clipped(r.values)) {
          CoveredChangesNothing(l, KeyOfReport(r), Clipped(r.values));
        }
    }
  }

  /** Exactly once: delivering again anything that was delivered before, however
      much later, leaves the ledger as it is. */
  lemma {:induction false} RedeliveryChangesNothing(l: Ledger, ds: seq<Delivery>, d: Delivery, hash: Hash)
    requires d in ds
    ensures Absorbed(DeliverAll(l, ds, hash), d)
    ensures Deliver(DeliverAll(l, ds, hash), d, hash) == DeliverAll(l, ds, hash)
  {
    var before, last := ds[..|ds| - 1], ds[|ds| - 1];
    if d in before {
      RedeliveryChangesNothing(l, before, d, hash);
      AbsorbedStays(DeliverAll(l, before, hash), d, last, hash);
    } else {
      DeliverAbsorbs(DeliverAll(l, before, hash), d, hash);
    }
    AbsorbedChangesNothing(DeliverAll(l, ds, hash), d, hash);
  }
}
