/** docker/openlia_usage.py: the collector as it runs, with a transaction that a
    crash or an error takes back and report files that outlive it. */
module UsageCollector {
  import opened Wrappers
  import opened Environment
  import opened UsageLedger
  import opened UsageConservation

  /** Raised: an error while rows were imported; Abandoned: one that ended the
      round before any row was. */
  datatype Ending = Finished | Raised | Abandoned | Killed

  /** What a report file holds; Unusable covers links, oversized files and what is
      passed over with a warning.  Blocking is a file whose error is not among those
      that the loop catches, such as a report whose tokens are a list. */
  datatype ReportFile = Unusable | Usable(report: Report) | Blocking

  class Collector {
    const hash: Hash
    const calm: bool
    /** The tables as the open transaction sees them, and as last committed. */
    var events: seq<Event>
    var checkpoints: map<Key, Counters>
    var savedEvents: seq<Event>
    var savedCheckpoints: map<Key, Counters>
    /** The files waiting in the report directory. */
    var reports: map<string, ReportFile>

    ghost function Now(): Ledger
      reads this
    {
      Ledger(events, checkpoints)
    }

    ghost function Saved(): Ledger
      reads this
    {
      Ledger(savedEvents, savedCheckpoints)
    }

    constructor (hash: Hash, calm: bool)
      ensures this.hash == hash && this.calm == calm
      ensures Now() == Saved() == EMPTY && reports == map[]
    {
      this.hash, this.calm := hash, calm;
      events, checkpoints := [], map[];
      savedEvents, savedCheckpoints := [], map[];
      reports := map[];
    }

    method Commit()
      modifies this`savedEvents, this`savedCheckpoints
      ensures Saved() == Now()
    {
      savedEvents, savedCheckpoints := events, checkpoints;
    }

    method Rollback()
      modifies this`events, this`checkpoints
      ensures Now() == Saved()
    {
      events, checkpoints := savedEvents, savedCheckpoints;
    }

    /** INSERT OR IGNORE into the event table. */
    method InsertEvent(e: Event)
      modifies this`events
      ensures events == Insert(old(events), e)
    {
      var i := 0;
      while i < |events|
        invariant 0 <= i <= |events|
        invariant events == old(events)
        invariant forall j | 0 <= j < i :: events[j].id != e.id
      {
        if events[i].id == e.id { return; }
        i := i + 1;
      }
      events := events + [e];
    }

    method ImportRow(row: Row, meta: Meta)
      modifies this`events, this`checkpoints
      ensures Now() == Deliver(old(Now()), FromHermes(row, meta), hash)
    {
      hide HighWater, Increase, Grows, Clipped, EventIdOf, Insert;
      var key := KeyOfSource(row.identity);
      var known := None;
      if key in checkpoints {
        known := Some(checkpoints[key]);
      } else if LegacyKey(row.identity) in checkpoints {
        known := Some(checkpoints[LegacyKey(row.identity)]);
      }
      var current := Clipped(row.values);
      var previous := if known.Some? then known.value else map[];
      var high := HighWater(current, previous);
      if row.ingestion && known.None? && meta.ownershipSince.Some? && row.firstSeen < meta.ownershipSince.value {
        checkpoints := checkpoints[key := high];
        return;
      }
      if Grows(current, previous) {
        InsertEvent(Event(
          EventIdOf(key, high, hash),
          if row.ingestion then Ingestion else if row.migration then Activity.Migration else Hermes,
          Increase(current, previous, row.priced, ProviderCost in row.values),
          known.None? && row.firstSeen < meta.started));
      }
      checkpoints := checkpoints[key := high];
    }

    /** Imports all rows inside the open transaction.  An error stops the import
        but keeps what was imported; a crash loses the transaction. */
    method ImportHermes(rows: seq<Row>, meta: Meta) returns (r: Ending, ghost imported: nat)
      modifies this`events, this`checkpoints
      ensures !r.Abandoned? && imported <= |rows| && (r.Finished? ==> imported == |rows|)
      ensures Now() == DeliverAll(old(Now()), RowDeliveries(rows[..imported], meta), hash)
      ensures calm ==> r.Finished?
    {
      imported := 0;
      assert Now() == DeliverAll(Now(), RowDeliveries(rows[..0], meta), hash);
      hide Deliver, DeliverAll, RowDeliveries;
      for i := 0 to |rows|
        invariant imported == i
        invariant Now() == DeliverAll(old(Now()), RowDeliveries(rows[..i], meta), hash)
      {
        var step := Chance(calm);
        if !step.Done? { return (if step.Died? then Killed else Raised), i; }
        ImportRow(rows[i], meta);
        imported := i + 1;
        OneMoreRow(old(Now()), rows, i, meta, hash);
      }
      assert rows[..|rows|] == rows;
      r := Finished;
    }

    /** Imports one report in its own transaction; false is an error. */
    method ImportReport(report: Report) returns (ok: bool)
      modifies this`events, this`checkpoints
      ensures ok == BookReport(old(Now()), report, hash).Some?
      ensures ok ==> Now() == BookReport(old(Now()), report, hash).value
    {
      if report.cumulative {
        var key := if report.shared.Some? then KeyOfSource(report.shared.value) else ReportKey(report.id);
        var previous := if key in checkpoints then checkpoints[key] else map[];
        var current := Clipped(report.values);
        var high := HighWater(current, previous);
        if Grows(current, previous) {
          if report.activity.None? { return false; }
          InsertEvent(Event(
            EventIdOf(key, high, hash), report.activity.value,
            Increase(current, previous, Cost in report.values, ProviderCost in report.values), report.historical));
        }
        checkpoints := checkpoints[key := high];
      } else {
        if report.activity.None? { return false; }
        InsertEvent(SingleEvent(report, report.activity.value));
      }
      return true;
    }

    /** Imports one usable file: committed, and then unlinked. */
    method ImportFile(name: string) returns (alive: bool, ghost ds: seq<Delivery>)
      requires Now() == Saved() && name in reports && reports[name].Usable?
      modifies this
      ensures Now() == Saved() == DeliverAll(old(Saved()), ds, hash)
      ensures Accounted(old(reports), reports, ds) && AreReports(ds) && old(reports) - {name} == reports - {name}
      ensures calm ==> alive && Imported(old(reports), reports, name, ds)
    {
      ds := [];
      var report := reports[name].report;
      var ok := ImportReport(report);
      var step := Chance(calm);
      if step.Died? || !ok {
        Rollback();
        return !step.Died?, ds;
      }
      Commit();
      ds := [FromReport(report)];
      assert ds[..0] == [];
      step := Chance(calm);
      if step.Done? { reports := reports - {name}; }  // unlinking may report an error
      alive := !step.Died?;
    }

    /** Imports the listed files: each is committed and then unlinked, and a
        crash may come between the two.  An error that is not caught ends the
        round; `unseen` says that a listed file could not be looked at. */
    method ImportReports(names: seq<string>) returns (r: Ending, ghost ds: seq<Delivery>, ghost unseen: bool)
      requires Now() == Saved()
      modifies this
      ensures Now() == Saved() == DeliverAll(old(Saved()), ds, hash)
      ensures Accounted(old(reports), reports, ds) && AreReports(ds)
      ensures !r.Raised? && (!r.Killed? ==> (r.Abandoned? <==> unseen || Blocked(old(reports), names)))
      ensures calm ==> !r.Killed? && (Listing(old(reports), names) ==> !unseen)
      ensures calm && r.Finished? ==> forall name <- names :: Imported(old(reports), reports, name, ds)
    {
      ds, unseen := [], false;
      assert Now() == DeliverAll(old(Saved()), ds, hash);
      hide Deliver, DeliverAll;
      for i := 0 to |names|
        invariant Now() == Saved() == DeliverAll(old(Saved()), ds, hash)
        invariant Accounted(old(reports), reports, ds) && AreReports(ds)
        invariant !unseen && forall j | 0 <= j < i && names[j] in old(reports) :: !old(reports)[names[j]].Blocking?
        invariant forall name <- old(reports) :: name in reports || name in names[..i]
        invariant calm ==> forall j | 0 <= j < i :: Imported(old(reports), reports, names[j], ds)
      {
        assert names[..i + 1] == names[..i] + [names[i]];
        var looked := Chance(calm);
        if !looked.Done? || names[i] !in reports {
          unseen := true;
          return Abandoned, ds, unseen;
        }
        if reports[names[i]].Blocking? { return Abandoned, ds, unseen; }
        if reports[names[i]].Usable? {
          ghost var before := reports;
          var alive;
          ghost var more;
          alive, more := ImportFile(names[i]);
          DeliverAllAppends(old(Saved()), ds, more, hash);
          FileImported(old(reports), before, reports, names, i, ds, more);
          ds := ds + more;
          if !alive { return Killed, ds, unseen; }
        }
      }
      r := Finished;
    }

    /** One round of the collector: reports, then rows, then the commit.  A round
        that is not killed comes to its rows exactly when no listed file blocks it
        and all could be looked at; otherwise it imports none. */
    method Tick(names: seq<string>, rows: seq<Row>, meta: Meta)
      returns (r: Ending, ghost ds: seq<Delivery>, ghost unseen: bool)
      requires Now() == Saved()
      modifies this
      ensures Now() == Saved() == DeliverAll(old(Saved()), ds, hash)
      ensures Accounted(old(reports), reports, ds)
      ensures r.Finished? ==> forall row <- rows :: FromHermes(row, meta) in ds
      ensures !r.Killed? ==> (r.Abandoned? <==> unseen || Blocked(old(reports), names))
      ensures r.Abandoned? || r.Killed? || Blocked(old(reports), names) ==> AreReports(ds)
      ensures calm && Listing(old(reports), names) ==>
                r == (if Blocked(old(reports), names) then Abandoned else Finished)
                && (r.Finished? ==> forall name <- names :: Imported(old(reports), reports, name, ds))
    {
      hide Deliver, DeliverAll, Accounted, RowDeliveries, Blocked, AreReports;
      r, ds, unseen := ImportReports(names);
      if r.Killed? || r.Abandoned? { return; }
      ghost var imported;
      r, imported := ImportHermes(rows, meta);
      var step := Chance(calm);
      if r.Killed? || step.Died? {
        Rollback();
        r := Killed;
        return;
      }
      Commit();
      DeliverAllAppends(old(Saved()), ds, RowDeliveries(rows[..imported], meta), hash);
      AccountedGrows(old(reports), reports, ds, RowDeliveries(rows[..imported], meta));
      if r.Finished? { RowsAreDelivered(ds, rows, rows[..imported], meta); }
      ds := ds + RowDeliveries(rows[..imported], meta);
    }

    /** publish_report, by another process between two rounds: the file of that
        name appears or is replaced. */
    method Publish(name: string, file: ReportFile)
      modifies this`reports
      ensures reports == old(reports)[name := file]
    {
      reports := reports[name := file];
    }

    /** record_response, by another process: one event in a transaction of its
        own; an unknown activity is an error and changes nothing. */
    method InsertDirectly(report: Report)
      requires Now() == Saved() && !report.cumulative
      modifies this`events, this`checkpoints, this`savedEvents, this`savedCheckpoints
      ensures Now() == Saved() == Deliver(old(Saved()), FromReport(report), hash)
    {
      var ok := ImportReport(report);
      if ok { Commit(); } else { Rollback(); }
    }

    method Step(step: Happening) returns (ghost ds: seq<Delivery>)
      requires Now() == Saved() && (step.Inserted? ==> !step.report.cumulative)
      modifies this
      ensures Now() == Saved() == DeliverAll(old(Saved()), ds, hash)
      ensures Accounted(Arrived(old(reports), step), reports, ds)
      ensures step.Round? && Blocked(old(reports), step.names) ==> AreReports(ds)
      ensures !step.Round? ==> AreReports(ds)
      ensures Brought(step, old(reports), calm, ds)
    {
      match step
      case Round(names, rows, meta) =>
        var r;
        ghost var unseen;
        r, ds, unseen := Tick(names, rows, meta);
      case Published(name, file) =>
        Publish(name, file);
        ds := [];
      case Inserted(report) =>
        InsertDirectly(report);
        ds := [FromReport(report)];
        assert ds[..0] == [];
    }

    /** Any number of rounds, each with the files and rows it happens to see;
        between them other processes publish reports and insert events.  A killed
        round is followed by a restart.  While a file that blocks is listed by every
        round and not replaced, no row is ever imported.  `files` is the directory
        before every step, and after the last. */
    method Serve(steps: seq<Happening>) returns (ghost ds: seq<Delivery>, ghost files: seq<map<string, ReportFile>>)
      requires Now() == Saved() == EMPTY
      requires forall step <- steps | step.Inserted? :: !step.report.cumulative
      modifies this
      ensures Now() == Saved() == DeliverAll(EMPTY, ds, hash)
      ensures Accounted(AllArrived(old(reports), steps), reports, ds)
      ensures forall key, k: Kind |
                IdFits(key) && (forall d <- ds | KeyOf(d) == Some(key) :: FirstHand(d) && (k == Cost ==> Priced(d))) ::
                Booked(savedEvents, key, k) == Largest(ds, key, k)
      ensures forall name | name in old(reports) && old(reports)[name].Blocking? && ListedAlways(steps, name) ::
                AreReports(ds) && name in reports && reports[name].Blocking?
      ensures |files| == |steps| + 1 && files[0] == old(reports) && files[|steps|] == reports
      ensures forall i | 0 <= i < |steps| :: Brought(steps[i], files[i], calm, ds)
    {
      ds, files := [], [reports];
      assert steps[..0] == [];
      for i := 0 to |steps|
        invariant Now() == Saved() == DeliverAll(EMPTY, ds, hash)
        invariant Accounted(AllArrived(old(reports), steps[..i]), reports, ds)
        invariant forall name | name in old(reports) && old(reports)[name].Blocking? && ListedAlways(steps, name) ::
                    AreReports(ds) && name in reports && reports[name].Blocking?
        invariant |files| == i + 1 && files[0] == old(reports) && files[i] == reports
        invariant forall j | 0 <= j < i :: Brought(steps[j], files[j], calm, ds)
      {
        ghost var before, was := reports, files;
        ghost var more := Step(steps[i]);
        files := files + [reports];
        forall j | 0 <= j <= i ensures Brought(steps[j], files[j], calm, ds + more) {
          if j < i {
            BroughtStays(steps[j], was[j], calm, ds, more);
          } else {
            BroughtLater(steps[i], before, calm, ds, more);
          }
        }
        StaysBlocking(before, steps[i], reports, more);
        DeliverAllAppends(EMPTY, ds, more, hash);
        AccountedOnward(AllArrived(old(reports), steps[..i]), before, steps[i], reports, ds, more);
        assert steps[..i + 1][..i] == steps[..i];
        ds := ds + more;
      }
      assert steps[..|steps|] == steps;
      forall key, k: Kind |
        IdFits(key) && (forall d <- ds | KeyOf(d) == Some(key) :: FirstHand(d) && (k == Cost ==> Priced(d)))
        ensures Booked(savedEvents, key, k) == Largest(ds, key, k)
      {
        Conservation(ds, key, k, hash);
      }
    }
  }

  /** A round of the collector, or what another process does between rounds. */
  datatype Happening =
    | Round(names: seq<string>, rows: seq<Row>, meta: Meta)
    | Published(name: string, file: ReportFile)
    | Inserted(report: Report)

  /** The files that have been there, with the last one of every name. */
  function Arrived(files: map<string, ReportFile>, step: Happening): map<string, ReportFile> {
    if step.Published? then files[step.name := step.file] else files
  }

  function AllArrived(files: map<string, ReportFile>, steps: seq<Happening>): map<string, ReportFile> {
    if steps == [] then files else Arrived(AllArrived(files, steps[..|steps| - 1]), steps[|steps| - 1])
  }

  /** What a step delivers: an inserted event, and, in a calm round that nothing
      blocks, every row and every usable report that names its activity. */
  ghost predicate Brought(step: Happening, files: map<string, ReportFile>, calm: bool, ds: seq<Delivery>) {
    match step
    case Published(_, _) => true
    case Inserted(report) => FromReport(report) in ds
    case Round(names, rows, meta) =>
      calm && Listing(files, names) && !Blocked(files, names) ==>
        && (forall row <- rows :: FromHermes(row, meta) in ds)
        && forall name <- names | files[name].Usable? && files[name].report.activity.Some? ::
             FromReport(files[name].report) in ds
  }

  lemma BroughtStays(
    step: Happening, files: map<string, ReportFile>, calm: bool, ds: seq<Delivery>, more: seq<Delivery>)
    requires Brought(step, files, calm, ds)
    ensures Brought(step, files, calm, ds + more)
  {
  }

  lemma BroughtLater(
    step: Happening, files: map<string, ReportFile>, calm: bool, ds: seq<Delivery>, more: seq<Delivery>)
    requires Brought(step, files, calm, more)
    ensures Brought(step, files, calm, ds + more)
  {
  }

  /** A file on which the round ends is among those listed. */
  ghost predicate Blocked(files: map<string, ReportFile>, names: seq<string>) {
    exists name <- names :: name in files && files[name].Blocking?
  }

  /** The listed files are there, each listed once. */
  ghost predicate Listing(files: map<string, ReportFile>, names: seq<string>) {
    && (forall name <- names :: name in files)
    && forall i, j | 0 <= i < j < |names| :: names[i] != names[j]
  }

  /** A usable report that names its activity was delivered, and its file is gone. */
  ghost predicate Imported(
    before: map<string, ReportFile>, after: map<string, ReportFile>, name: string, ds: seq<Delivery>)
  {
    name in before && before[name].Usable? && before[name].report.activity.Some? ==>
      name !in after && FromReport(before[name].report) in ds
  }

  lemma FileImported(
    first: map<string, ReportFile>, before: map<string, ReportFile>, after: map<string, ReportFile>, names: seq<string>,
    i: nat, ds: seq<Delivery>, more: seq<Delivery>)
    requires i < |names| && before - {names[i]} == after - {names[i]}
    requires Accounted(first, before, ds) && AreReports(ds) && Accounted(before, after, more) && AreReports(more)
    requires names[i] in before
    ensures Accounted(first, after, ds + more) && AreReports(ds + more)
    ensures forall j | 0 <= j < i && Imported(first, before, names[j], ds) ::
              Imported(first, after, names[j], ds + more)
    ensures Imported(before, after, names[i], more) ==> Imported(first, after, names[i], ds + more)
    ensures forall name <- first :: name in before && name != names[i] ==> name in after
  {
    forall name <- before | name != names[i] ensures name in after {
      assert name in before - {names[i]};
    }
  }

  ghost predicate AreReports(ds: seq<Delivery>) {
    forall d <- ds :: d.FromReport?
  }

  /** Every round lists the file, and nothing is published in its place. */
  ghost predicate ListedAlways(steps: seq<Happening>, name: string) {
    forall step <- steps :: Lists(step, name)
  }

  predicate Lists(step: Happening, name: string) {
    (step.Round? ==> name in step.names) && (step.Published? ==> step.name != name)
  }

  lemma StaysBlocking(before: map<string, ReportFile>, step: Happening, after: map<string, ReportFile>,
                      ds: seq<Delivery>)
    requires Accounted(Arrived(before, step), after, ds)
    ensures forall name | name in before && before[name].Blocking? && Lists(step, name) ::
              && name in after && after[name].Blocking?
              && (step.Round? ==> Blocked(before, step.names))
  {
  }

  lemma AccountedOnward(first: map<string, ReportFile>, before: map<string, ReportFile>, step: Happening,
                        after: map<string, ReportFile>, ds: seq<Delivery>, more: seq<Delivery>)
    requires Accounted(first, before, ds) && Accounted(Arrived(before, step), after, more)
    ensures Accounted(Arrived(first, step), after, ds + more)
  {
  }

  function RowDeliveries(rows: seq<Row>, meta: Meta): (r: seq<Delivery>)
    ensures |r| == |rows|
  {
    seq(|rows|, i requires 0 <= i < |rows| => FromHermes(rows[i], meta))
  }

  lemma OneMoreRow(l: Ledger, rows: seq<Row>, i: nat, meta: Meta, hash: Hash)
    requires i < |rows|
    ensures DeliverAll(l, RowDeliveries(rows[..i + 1], meta), hash)
         == Deliver(DeliverAll(l, RowDeliveries(rows[..i], meta), hash), FromHermes(rows[i], meta), hash)
  {
    hide Deliver;
    var ds := RowDeliveries(rows[..i + 1], meta);
    assert ds[..i] == RowDeliveries(rows[..i], meta) && ds[i] == FromHermes(rows[i], meta);
  }

  lemma RowsAreDelivered(ds: seq<Delivery>, rows: seq<Row>, imported: seq<Row>, meta: Meta)
    requires imported == rows
    ensures forall row <- rows :: FromHermes(row, meta) in ds + RowDeliveries(imported, meta)
  {
    forall row <- rows ensures FromHermes(row, meta) in ds + RowDeliveries(rows, meta) {
      var i :| 0 <= i < |rows| && rows[i] == row;
      assert (ds + RowDeliveries(rows, meta))[|ds| + i] == FromHermes(row, meta);
    }
  }

  /** No file appears or changes, and a file is gone only if its report was
      delivered. */
  ghost predicate Accounted(before: map<string, ReportFile>, after: map<string, ReportFile>, ds: seq<Delivery>) {
    && (forall name <- after :: name in before && after[name] == before[name])
    && forall name <- before :: name in after || (before[name].Usable? && FromReport(before[name].report) in ds)
  }

  lemma AccountedGrows(before: map<string, ReportFile>, after: map<string, ReportFile>, ds: seq<Delivery>,
    more: seq<Delivery>)
    requires Accounted(before, after, ds)
    ensures Accounted(before, after, ds + more)
  {
  }

  lemma {:induction false} DeliverAllAppends(l: Ledger, ds: seq<Delivery>, more: seq<Delivery>, hash: Hash)
    ensures DeliverAll(l, ds + more, hash) == DeliverAll(DeliverAll(l, ds, hash), more, hash)
  {
    if more == [] {
      assert ds + more == ds;
    } else {
      assert (ds + more)[..|ds + more| - 1] == ds + more[..|more| - 1];
      DeliverAllAppends(l, ds, more[..|more| - 1], hash);
    }
  }
}
