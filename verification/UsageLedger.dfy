/** docker/openlia_usage.py: what booking cumulative counters does to the ledger,
    for any order, repetition or loss of counters.  Costs are whole numbers. */
module UsageLedger {
  import opened Wrappers

  /** The five token kinds and the two costs. */
  datatype Kind = Input | Output | CacheRead | CacheWrite | Reasoning | Cost | ProviderCost

  /** Values as they arrive: any whole number, or absent. */
  type Raw = map<Kind, int>

  /** Counters as a checkpoint stores them; an absent one counts as zero. */
  type Counters = map<Kind, nat>

  /** The six columns that identify a row of Hermes usage. */
  datatype Identity = Identity(
    session: Option<string>, model: Option<string>, provider: Option<string>,
    baseUrl: Option<string>, mode: Option<string>, task: Option<string>)

  /** A checkpoint id.  Source and legacy keys are hashes, taken as injective. */
  datatype Key = SourceKey(identity: Identity) | LegacyKey(identity: Identity) | ReportKey(report: string)

  /** An event id: plain text, or a key followed by the hash of its counters. */
  datatype EventId = PlainId(text: string) | CounterId(key: Key, high: Counters)

  datatype Activity = Hermes | Ingestion | Migration

  /** `amounts` holds the kinds that the event records. */
  datatype Event = Event(id: EventId, activity: Activity, amounts: Counters, historical: bool)

  /** The two tables; a row is added to `events` only if its id is new. */
  datatype Ledger = Ledger(events: seq<Event>, checkpoints: map<Key, Counters>)

  const EMPTY := Ledger([], map[])

  // ---------------------------------------------------------------- counters

  function At(c: Counters, k: Kind): nat {
    if k in c then c[k] else 0
  }

  /** counters(): one value for each kind, nothing below zero. */
  function Clipped(raw: Raw): Counters {
    map k: Kind :: if k in raw && raw[k] > 0 then raw[k] else 0
  }

  function HighWater(a: Counters, b: Counters): Counters {
    map k: Kind :: if At(a, k) >= At(b, k) then At(a, k) else At(b, k)
  }

  predicate Grows(current: Counters, previous: Counters) {
    exists k: Kind :: At(current, k) > At(previous, k)
  }

  function Excess(a: nat, b: nat): nat {
    if a >= b then a - b else 0
  }

  predicate IsToken(k: Kind) {
    k != Cost && k != ProviderCost
  }

  /** What an event records: all token kinds, and each cost that was given. */
  function Increase(current: Counters, previous: Counters, costGiven: bool, providerCostGiven: bool): Counters {
    map k: Kind | IsToken(k) || (k == Cost && costGiven) || (k == ProviderCost && providerCostGiven) ::
      Excess(At(current, k), At(previous, k))
  }

  // -------------------------------------------------------------------- keys

  function OrEmpty(value: Option<string>): Option<string> {
    if value.Some? then value else Some("")
  }

  /** source_key: absent and empty columns count as the same. */
  function KeyOfSource(i: Identity): Key {
    SourceKey(Identity(OrEmpty(i.session), OrEmpty(i.model), OrEmpty(i.provider),
                       OrEmpty(i.baseUrl), OrEmpty(i.mode), OrEmpty(i.task)))
  }

  const MAX_ID := 512
  const HASH_LENGTH := 64

  function Cut(text: string): string {
    if |text| > MAX_ID then text[..MAX_ID] else text
  }

  /** The digits of the SHA-256 hash of a mark, whatever they are. */
  type Hash = hash: Counters -> string | HasDigits(hash) witness Zeros

  ghost predicate HasDigits(hash: Counters -> string) {
    forall c: Counters :: |hash(c)| == HASH_LENGTH
  }

  function Zeros(c: Counters): string {
    seq(HASH_LENGTH, _ => '0')
  }

  function Prefix(report: string): string {
    "report:" + report + ":"
  }

  /** The id "key:hash" fits the column.  A hashed key always does. */
  predicate IdFits(key: Key) {
    key.ReportKey? ==> |Prefix(key.report)| + HASH_LENGTH <= MAX_ID
  }

  /** Whole hashes are taken as injective; an id that does not fit is the text
      that is left of it. */
  function EventIdOf(key: Key, high: Counters, hash: Hash): EventId {
    if IdFits(key) then CounterId(key, high)
    else match key
      case ReportKey(report) => PlainId(Cut(Prefix(report) + hash(high)))
      case _ => CounterId(key, high)
  }

  // -------------------------------------------------------------- deliveries

  /** A row of Hermes usage; `priced` tells whether its estimated cost counts. */
  datatype Row = Row(
    identity: Identity, values: Raw, priced: bool, ingestion: bool, migration: bool, firstSeen: int)

  /** Times from the metadata table that an import reads. */
  datatype Meta = Meta(started: int, ownershipSince: Option<int>)

  /** A report file; `activity` is None when it names no known activity and
      `shared` is the source whose checkpoint it names. */
  datatype Report = Report(
    id: string, activity: Option<Activity>, cumulative: bool, shared: Option<Identity>, tokensGiven: bool, values: Raw,
    historical: bool)

  datatype Delivery = FromHermes(row: Row, meta: Meta) | FromReport(report: Report)

  function KeyOfReport(r: Report): Key {
    if r.shared.Some? then KeyOfSource(r.shared.value) else ReportKey(r.id)
  }

  /** The key that a delivery counts for, if it is cumulative. */
  function KeyOf(d: Delivery): Option<Key> {
    match d
    case FromHermes(row, _) => Some(KeyOfSource(row.identity))
    case FromReport(r) => if r.cumulative then Some(KeyOfReport(r)) else None
  }

  /** The counters that a delivery observes. */
  function CountersOf(d: Delivery): Counters {
    match d
    case FromHermes(row, _) => Clipped(row.values)
    case FromReport(r) => Clipped(r.values)
  }

  function ActivityOf(row: Row): Activity {
    if row.ingestion then Ingestion else if row.migration then Activity.Migration else Hermes
  }

  /** INSERT OR IGNORE. */
  function Insert(events: seq<Event>, e: Event): seq<Event> {
    if exists i | 0 <= i < |events| :: events[i].id == e.id then events else events + [e]
  }

  /** What an earlier import left for this row: its own checkpoint, or the one
      under the key that earlier releases used. */
  function Previous(checkpoints: map<Key, Counters>, identity: Identity): Option<Counters> {
    if KeyOfSource(identity) in checkpoints then Some(checkpoints[KeyOfSource(identity)])
    else if LegacyKey(identity) in checkpoints then Some(checkpoints[LegacyKey(identity)])
    else None
  }

  /** A row that an earlier release recorded itself is only remembered. */
  predicate OnlyRemembered(row: Row, known: Option<Counters>, meta: Meta) {
    row.ingestion && known.None? && meta.ownershipSince.Some? && row.firstSeen < meta.ownershipSince.value
  }

  function CountersOr(known: Option<Counters>): Counters {
    if known.Some? then known.value else map[]
  }

  function RowEvent(row: Row, meta: Meta, known: Option<Counters>, hash: Hash): Event {
    var current := Clipped(row.values);
    Event(
      EventIdOf(KeyOfSource(row.identity), HighWater(current, CountersOr(known)), hash), ActivityOf(row),
      Increase(current, CountersOr(known), row.priced, ProviderCost in row.values),
      known.None? && row.firstSeen < meta.started)
  }

  function BookRow(l: Ledger, row: Row, meta: Meta, hash: Hash): Ledger {
    var known := Previous(l.checkpoints, row.identity);
    var current := Clipped(row.values);
    Ledger(
      if !OnlyRemembered(row, known, meta) && Grows(current, CountersOr(known))
        then Insert(l.events, RowEvent(row, meta, known, hash)) else l.events,
      l.checkpoints[KeyOfSource(row.identity) := HighWater(current, CountersOr(known))])
  }

  function CumulativeEvent(r: Report, activity: Activity, previous: Counters, hash: Hash): Event {
    var current := Clipped(r.values);
    Event(
      EventIdOf(KeyOfReport(r), HighWater(current, previous), hash), activity,
      Increase(current, previous, Cost in r.values, ProviderCost in r.values), r.historical)
  }

  /** A report that stands for itself; a negative cost counts as none. */
  function SingleEvent(r: Report, activity: Activity): Event {
    Event(
      PlainId(Cut(r.id)), activity,
      map k: Kind | (if IsToken(k) then r.tokensGiven else k in r.values && r.values[k] >= 0) ::
        At(Clipped(r.values), k),
      r.historical)
  }

  /** None is an error: the report stays where it is and nothing changes. */
  function BookReport(l: Ledger, r: Report, hash: Hash): Option<Ledger> {
    if r.cumulative then
      var key := KeyOfReport(r);
      var previous := if key in l.checkpoints then l.checkpoints[key] else map[];
      var current := Clipped(r.values);
      var checkpoints := l.checkpoints[key := HighWater(current, previous)];
      if !Grows(current, previous) then Some(Ledger(l.events, checkpoints))
      else if r.activity.None? then None
      else Some(Ledger(Insert(l.events, CumulativeEvent(r, r.activity.value, previous, hash)), checkpoints))
    else if r.activity.None? then None
    else Some(Ledger(Insert(l.events, SingleEvent(r, r.activity.value)), l.checkpoints))
  }

  function Deliver(l: Ledger, d: Delivery, hash: Hash): Ledger {
    match d
    case FromHermes(row, meta) => BookRow(l, row, meta, hash)
    case FromReport(r) => var booked := BookReport(l, r, hash); if booked.Some? then booked.value else l
  }

  function DeliverAll(l: Ledger, ds: seq<Delivery>, hash: Hash): Ledger {
    if ds == [] then l else Deliver(DeliverAll(l, ds[..|ds| - 1], hash), ds[|ds| - 1], hash)
  }
}
