/** docker/openlia_usage.py: event ids that are cut to the width of their column,
    and what the ledger loses by it. */
module UsageCutIds {
  import opened Wrappers
  import opened UsageLedger
  import opened UsageConservation

  /** How many digits of the hash are left in the id of a report. */
  function KeptDigits(report: string): nat {
    var room := MAX_ID - |Prefix(report)|;
    if room <= 0 then 0 else if room >= HASH_LENGTH then HASH_LENGTH else room
  }

  lemma KeptDigitsOf(report: string)
    ensures |report| <= 440 ==> KeptDigits(report) == 64 && IdFits(ReportKey(report))
    ensures 440 < |report| < 504 ==> KeptDigits(report) == 504 - |report| && !IdFits(ReportKey(report))
    ensures 504 <= |report| ==> KeptDigits(report) == 0 && !IdFits(ReportKey(report))
  {
    assert |Prefix(report)| == |report| + 8;
  }

  /** Two marks of a report have one id exactly when the digits that are left
      coincide. */
  lemma CutIdsCollideExactly(report: string, g: Counters, h: Counters, hash: Hash)
    requires !IdFits(ReportKey(report))
    ensures EventIdOf(ReportKey(report), g, hash) == EventIdOf(ReportKey(report), h, hash)
      <==> hash(g)[..KeptDigits(report)] == hash(h)[..KeptDigits(report)]
  {
    var prefix, n := Prefix(report), KeptDigits(report);
    if |prefix| >= MAX_ID {
      assert Cut(prefix + hash(g)) == prefix[..MAX_ID] == Cut(prefix + hash(h));
    } else {
      CutOf(prefix, hash(g), n);
      CutOf(prefix, hash(h), n);
      assert (prefix + hash(g)[..n])[|prefix|..] == hash(g)[..n];
      assert (prefix + hash(h)[..n])[|prefix|..] == hash(h)[..n];
    }
  }

  lemma CutOf(prefix: string, digits: string, n: nat)
    requires |prefix| < MAX_ID && n == MAX_ID - |prefix| < |digits|
    ensures Cut(prefix + digits) == prefix + digits[..n]
  {
  }

  // ------------------------------------------------------------------- runs

  /** Delivery `i` of a run from the empty ledger books an event under `id`, or
      finds the id taken. */
  ghost predicate Claims(ds: seq<Delivery>, i: nat, id: EventId, hash: Hash)
    requires i < |ds|
  {
    var e := EventOf(DeliverAll(EMPTY, ds[..i], hash), ds[i], hash);
    e.Some? && e.value.id == id
  }

  ghost predicate Claimed(ds: seq<Delivery>, id: EventId, hash: Hash) {
    exists i: nat | i < |ds| :: Claims(ds, i, id, hash)
  }

  lemma ClaimedLater(ds: seq<Delivery>, d: Delivery, id: EventId, hash: Hash)
    ensures Claimed(ds + [d], id, hash) <==> Claimed(ds, id, hash) || Claims(ds + [d], |ds|, id, hash)
  {
    var es := ds + [d];
    hide EventOf, DeliverAll;
    forall i: nat | i < |ds| ensures Claims(es, i, id, hash) == Claims(ds, i, id, hash) {
      assert es[..i] == ds[..i];
    }
    if i: nat :| i < |ds| && Claims(ds, i, id, hash) { assert Claims(es, i, id, hash); }
    if i: nat :| i < |es| && Claims(es, i, id, hash) { assert i < |ds| ==> Claims(ds, i, id, hash); }
  }

  lemma InsertHoldsExactly(events: seq<Event>, e: Event, id: EventId)
    ensures Holds(Insert(events, e), id) <==> Holds(events, id) || e.id == id
  {
    InsertHolds(events, e);
    if e.id != id && Holds(events + [e], id) {
      var i :| 0 <= i < |events + [e]| && (events + [e])[i].id == id;
      assert events[i].id == id;
    }
  }

  /** An id is held exactly when an earlier delivery claimed it. */
  lemma {:induction false} HeldExactly(ds: seq<Delivery>, id: EventId, hash: Hash)
    ensures Holds(DeliverAll(EMPTY, ds, hash).events, id) <==> Claimed(ds, id, hash)
  {
    hide EventOf, Deliver, Holds, Claimed;
    if ds == [] {
      NothingHeld(id, hash);
    } else {
      var before, last := ds[..|ds| - 1], ds[|ds| - 1];
      var l := DeliverAll(EMPTY, before, hash);
      assert ds == before + [last] && ds[..|before|] == before;
      HeldExactly(before, id, hash);
      DeliverInserts(l, last, hash);
      ClaimedLater(before, last, id, hash);
      var e := EventOf(l, last, hash);
      if e.Some? { InsertHoldsExactly(l.events, e.value, id); }
    }
  }

  lemma NothingHeld(id: EventId, hash: Hash)
    ensures !Holds(EMPTY.events, id) && !Claimed([], id, hash)
  {
  }

  /** A report that grows is dropped from the events exactly when an earlier
      delivery claimed the text that is left of its id; its checkpoint rises all
      the same.  An id that fits is never dropped. */
  lemma GrowthDroppedExactly(ds: seq<Delivery>, r: Report, hash: Hash)
    requires var l := DeliverAll(EMPTY, ds, hash);
      r.cumulative && r.activity.Some? && Grows(Clipped(r.values), HighOf(l, KeyOfReport(r)))
    ensures var l := DeliverAll(EMPTY, ds, hash);
      var key, high := KeyOfReport(r), HighWater(Clipped(r.values), HighOf(l, KeyOfReport(r)));
      var after := Deliver(l, FromReport(r), hash);
      && (after.events == l.events <==> Claimed(ds, EventIdOf(key, high, hash), hash))
      && (IdFits(key) ==> after.events != l.events)
      && HighOf(after, key) == high && Grows(high, HighOf(l, key))
  {
    var l := DeliverAll(EMPTY, ds, hash);
    var key, current, previous := KeyOfReport(r), Clipped(r.values), HighOf(l, KeyOfReport(r));
    var high := HighWater(current, previous);
    var id := EventIdOf(key, high, hash);
    hide Claimed, EventOf, DeliverAll;
    HeldExactly(ds, id, hash);
    if IdFits(key) {
      DeliverAllKeepsConsistent(EMPTY, ds, hash);
      GrowthIsNew(l, key, current, previous);
    }
    var k :| At(current, k) > At(previous, k);
    HighWaterAt(current, previous);
    assert At(high, k) > At(previous, k);
  }

  // --------------------------------------------------------------- a witness

  function LongId(): (r: string)
    ensures |r| == 504
  {
    seq(504, _ => 'a')
  }

  function Counted(n: nat): Report {
    Report(LongId(), Some(Ingestion), true, None, true, map[Input := n], false)
  }

  /** The ledger after the first report. */
  function AfterOne(hash: Hash): Ledger {
    Deliver(EMPTY, FromReport(Counted(1)), hash)
  }

  lemma FirstTokenIsBooked(hash: Hash)
    ensures var l, key := AfterOne(hash), ReportKey(LongId());
      && |l.events| == 1 && At(l.events[0].amounts, Input) == 1
      && HighOf(l, key) == HighWater(Clipped(Counted(1).values), map[])
      && l.events[0].id == EventIdOf(key, HighOf(l, key), hash)
  {
    var current := Clipped(Counted(1).values);
    hide EventIdOf, LongId;
    assert At(current, Input) > At(map[], Input);
  }

  lemma NoMoreIsBooked(l: Ledger, hash: Hash)
    requires var key := ReportKey(LongId());
      && |l.events| == 1 && HighOf(l, key) == HighWater(Clipped(Counted(1).values), map[])
      && l.events[0].id == EventIdOf(key, HighOf(l, key), hash)
    ensures var after := Deliver(l, FromReport(Counted(2)), hash);
      after.events == l.events && At(HighOf(after, ReportKey(LongId())), Input) == 2
  {
    var key, current := ReportKey(LongId()), Clipped(Counted(2).values);
    var previous := HighOf(l, key);
    KeptDigitsOf(LongId());
    CutIdsCollideExactly(LongId(), previous, HighWater(current, previous), hash);
    hide EventIdOf, LongId, IdFits, Increase;
    HighWaterAt(current, previous);
    HighWaterAt(Clipped(Counted(1).values), map[]);
    assert At(previous, Input) == 1 && At(current, Input) == 2;
  }

  /** Two reports of one source, the first with one token and the second with
      two: no digit is left in their ids, and the second token is never booked. */
  lemma SecondTokenIsLost(hash: Hash)
    ensures var l := DeliverAll(EMPTY, [FromReport(Counted(1)), FromReport(Counted(2))], hash);
      |l.events| == 1 && At(l.events[0].amounts, Input) == 1 && At(HighOf(l, ReportKey(LongId())), Input) == 2
  {
    var first, second := FromReport(Counted(1)), FromReport(Counted(2));
    hide Deliver, HighOf;
    FirstTokenIsBooked(hash);
    NoMoreIsBooked(AfterOne(hash), hash);
    assert [first, second][..1] == [first] && [first][..0] == [];
    assert DeliverAll(EMPTY, [first], hash) == AfterOne(hash);
  }
}
