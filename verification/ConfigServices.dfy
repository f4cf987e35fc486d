/** cli/config.go: the service hosts of a configuration, as they are written to a
    file and collected again from its tables. */
module ConfigServices {
  import opened Wrappers
  import opened Quoting
  import opened ConfigValues
  import opened ConfigDocument
  import opened Texts
  import Lines

  /** The services of a host by name, each with its role. */
  datatype Host = Host(name: string, source: string, roles: map<string, string>)

  const SECTION := "services"
  const ROLES := {"openlia-browser", "openai-gateway"}
  const FIELDS := {"name", "source"}
  const NO_HOST := Host("", "", map[])

  /** A host with its services in the order in which they are written. */
  datatype Block = Block(host: Host, keys: seq<string>)

  /** The keys that the section has and how their values are read. */
  ghost predicate ReadsServices(s: Schema) {
    && s.takesQuotedKeys(SECTION) && s.fits("")
    && forall key :: s.kind(SECTION, key) ==
         if key == "source" then Some(PathKind) else if '.' in key then None else Some(TextKind)
  }

  /** What validateConfig demands of services. */
  predicate Allowed(h: Host, keys: seq<string>) {
    forall i | 0 <= i < |keys| :: keys[i] in h.roles && ServiceName(keys[i]) && h.roles[keys[i]] in ROLES
  }

  /** All services of the host are written, and are as they may be saved. */
  ghost predicate Saved(b: Block) {
    Allowed(b.host, b.keys) && forall key <- b.host.roles :: key in b.keys
  }

  /** safeComponent */
  predicate ServiceName(key: string) {
    Name(key) && '.' !in key
  }

  // ---------------------------------------------------------------- the writer

  function Bare(s: Schema): Schema {
    s.(quotesKey := (section, key) => false)
  }

  function Quoted(s: Schema): Schema {
    s.(quotesKey := (section, key) => true)
  }

  /** Empty fields are not written; `source` is what is written for that field. */
  function FieldEntries(h: Host, source: string): seq<Entry> {
    (if h.source == "" then [] else [Entry("source", Text(source))])
    + (if h.name == "" then [] else [Entry("name", Text(h.name))])
  }

  function RoleEntries(h: Host, keys: seq<string>): seq<Entry>
    requires Allowed(h, keys)
  {
    seq(|keys|, i requires 0 <= i < |keys| => Entry(keys[i], Text(h.roles[keys[i]])))
  }

  /** The fields without quotes around their keys, the services with them. */
  function HostLines(s: Schema, b: Block, q: Printable): seq<string>
    requires Saved(b)
  {
    [""] + ["[[services]]"]
    + EntryLines(Bare(s), SECTION, FieldEntries(b.host, b.host.source), q)
    + EntryLines(Quoted(s), SECTION, RoleEntries(b.host, b.keys), q)
  }

  function ServicesLines(s: Schema, bs: seq<Block>, q: Printable): seq<string>
    requires forall b <- bs :: Saved(b)
  {
    if bs == [] then [] else HostLines(s, bs[0], q) + ServicesLines(s, bs[1..], q)
  }

  /** A file with other tables and the hosts, which come last. */
  function FileLines(s: Schema, doc: seq<Table>, bs: seq<Block>, q: Printable): seq<string>
    requires forall b <- bs :: Saved(b)
  {
    DocumentLines(s, doc, q) + ServicesLines(s, bs, q)
  }

  function FileText(s: Schema, doc: seq<Table>, bs: seq<Block>, q: Printable): string
    requires forall b <- bs :: Saved(b)
  {
    Lines.Join(FileLines(s, doc, bs, q) + [""], '\n')
  }

  // ------------------------------------------------------------- the collection

  /** One setting of a host: a key that is not a field is a service. */
  function Assign(h: Host, e: Entry): Option<Host> {
    if !e.value.Text? then None
    else if e.key == "name" then Some(h.(name := e.value.text))
    else if e.key == "source" then Some(h.(source := e.value.text))
    else if '.' in e.key || e.value.text !in ROLES then None
    else Some(h.(roles := h.roles[e.key := e.value.text]))
  }

  function AssignAll(h: Host, es: seq<Entry>): Option<Host> {
    if es == [] then Some(h)
    else
      var before := AssignAll(h, es[..|es| - 1]);
      if before.None? then None else Assign(before.value, es[|es| - 1])
  }

  /** The hosts after one more table: a section in single brackets goes on with
      the last host. */
  function Collect(hosts: seq<Host>, t: Table): Option<seq<Host>> {
    if t.name != SECTION then Some(hosts)
    else
      var more := t.isArray || hosts == [];
      var h := AssignAll(if more then NO_HOST else hosts[|hosts| - 1], t.entries);
      if h.None? then None else Some((if more then hosts else hosts[..|hosts| - 1]) + [h.value])
  }

  function Collected(doc: seq<Table>): Option<seq<Host>> {
    if doc == [] then Some([])
    else
      var before := Collected(doc[..|doc| - 1]);
      if before.None? then None else Collect(before.value, doc[|doc| - 1])
  }

  /** The hosts of a file; None is an error. */
  function HostsOf(doc: Option<seq<Table>>): Option<seq<Host>> {
    if doc.None? then None else Collected(doc.value)
  }

  // ------------------------------------------------------------ reading a host

  /** What becomes of a host. */
  function Back(s: Schema, h: Host): Option<Host> {
    if Marked(h.name) || Marked(h.source) then None
    else Some(Host(
      if "name" in h.roles then h.roles["name"] else h.name,
      if "source" in h.roles then h.roles["source"] else Expanded(h.source, s.home),
      h.roles - FIELDS))
  }

  lemma {:induction false} AssignJoin(h: Host, a: seq<Entry>, b: seq<Entry>)
    ensures AssignAll(h, a + b)
      == var first := AssignAll(h, a); if first.None? then None else AssignAll(first.value, b)
  {
    hide Assign;
    if b == [] {
      assert a + b == a;
    } else {
      assert (a + b)[..|a + b| - 1] == a + b[..|b| - 1];
      AssignJoin(h, a, b[..|b| - 1]);
    }
  }

  /** A host once the services `keys` of `h` have been assigned: those called like
      a field are not services of it. */
  function WithRoles(start: Host, h: Host, keys: seq<string>): Host
    requires Allowed(h, keys)
  {
    Host(
      if "name" in keys then h.roles["name"] else start.name,
      if "source" in keys then h.roles["source"] else start.source,
      start.roles + RolesOf(h, keys))
  }

  function RolesOf(h: Host, keys: seq<string>): map<string, string>
    requires Allowed(h, keys)
  {
    map key | key in keys && key !in FIELDS :: h.roles[key]
  }

  lemma {:induction false} RolesAssigned(start: Host, h: Host, keys: seq<string>)
    requires Allowed(h, keys)
    ensures AssignAll(start, RoleEntries(h, keys)) == Some(WithRoles(start, h, keys))
  {
    hide Assign, WithRoles, ServiceName;
    NoRoles(start, h);
    if keys != [] {
      var before, last := keys[..|keys| - 1], keys[|keys| - 1];
      RolesAssigned(start, h, before);
      var es := RoleEntries(h, keys);
      assert es[..|es| - 1] == RoleEntries(h, before);
      OneMoreRole(start, h, before, keys);
    }
  }

  lemma NoRoles(start: Host, h: Host)
    ensures WithRoles(start, h, []) == start
  {
  }

  lemma OneMoreRole(start: Host, h: Host, before: seq<string>, keys: seq<string>)
    requires Allowed(h, keys) && keys != [] && before == keys[..|keys| - 1]
    ensures var last := keys[|keys| - 1];
      Assign(WithRoles(start, h, before), Entry(last, Text(h.roles[last]))) == Some(WithRoles(start, h, keys))
  {
    var last := keys[|keys| - 1];
    assert keys == before + [last];
    assert ServiceName(last) && h.roles[last] in ROLES;
    hide ServiceName;
    assert RolesOf(h, keys) == if last in FIELDS then RolesOf(h, before) else RolesOf(h, before)[last := h.roles[last]];
    hide RolesOf;
    if last !in FIELDS {
      assert start.roles + RolesOf(h, before)[last := h.roles[last]]
          == (start.roles + RolesOf(h, before))[last := h.roles[last]];
    }
  }

  lemma AssignOne(h: Host, e: Entry)
    ensures AssignAll(h, [e]) == Assign(h, e)
  {
    assert [e][..0] == [];
  }

  lemma FieldsAssigned(h: Host, home: Home)
    ensures AssignAll(NO_HOST, FieldEntries(h, Expanded(h.source, home)))
      == Some(Host(h.name, Expanded(h.source, home), map[]))
  {
    var a := if h.source == "" then [] else [Entry("source", Text(Expanded(h.source, home)))];
    var b := if h.name == "" then [] else [Entry("name", Text(h.name))];
    AssignJoin(NO_HOST, a, b);
    var first := NO_HOST.(source := if h.source == "" then "" else Expanded(h.source, home));
    AssignOne(NO_HOST, Entry("source", Text(Expanded(h.source, home))));
    AssignOne(first, Entry("name", Text(h.name)));
    NotATilde(home);
  }

  lemma NotATilde(home: Home)
    ensures Expanded("", home) == ""
  {
  }

  // ----------------------------------------------------------- reading it back

  /** A text field and what comes after it. */
  lemma FieldBack(s: Schema, key: string, text: string, rest: seq<Entry>, q: Printable)
    requires ReadsServices(s) && key in FIELDS && ValidEntries(s, SECTION, rest)
    ensures var es := [Entry(key, Text(text))] + rest; var others := EntriesBack(s, SECTION, rest, q);
      && ValidEntries(s, SECTION, es)
      && EntriesBack(s, SECTION, es, q) ==
           if Marked(text) || others.None? then None
           else Some([Entry(key, Text(if key == "source" then Expanded(text, s.home) else text))] + others.value)
  {
    hide Unquoted, Uncommented, Quote, Marked, Expanded;
    var es := [Entry(key, Text(text))] + rest;
    assert es[1..] == rest;
    assert Name(key);
    TextIsRead(text, q);
  }

  lemma FieldsBack(s: Schema, h: Host, q: Printable)
    requires ReadsServices(s)
    ensures ValidEntries(s, SECTION, FieldEntries(h, h.source))
    ensures EntriesBack(s, SECTION, FieldEntries(h, h.source), q)
      == if Marked(h.name) || Marked(h.source) then None else Some(FieldEntries(h, Expanded(h.source, s.home)))
  {
    hide Marked, Expanded;
    EmptyField();
    var named := if h.name == "" then [] else [Entry("name", Text(h.name))];
    if h.name != "" {
      FieldBack(s, "name", h.name, [], q);
      assert named == named + [];
    }
    if h.source != "" {
      FieldBack(s, "source", h.source, named, q);
    } else {
      assert [] + named == named;
    }
  }

  lemma EmptyField()
    ensures !Marked("")
  {
  }

  lemma RolesBack(s: Schema, h: Host, keys: seq<string>, q: Printable)
    requires ReadsServices(s) && Allowed(h, keys)
    ensures ValidEntries(s, SECTION, RoleEntries(h, keys))
    ensures EntriesBack(s, SECTION, RoleEntries(h, keys), q) == Some(RoleEntries(h, keys))
  {
    var es := RoleEntries(h, keys);
    forall i | 0 <= i < |es|
      ensures ValidEntry(s, SECTION, es[i]) && Kept(KindOf(s, SECTION, es[i]), es[i].value, s.home)
    {
      RoleIsKept(h.roles[keys[i]], s.home);
    }
    EntriesBackExactly(s, SECTION, es, q);
  }

  lemma RoleIsKept(role: string, home: Home)
    requires role in ROLES
    ensures !Marked(role) && Expanded(role, home) == role
  {
    assert ' ' !in role && role[0] == 'o';
  }

  lemma {:induction false} QuotesAreWritten(s: Schema, doc: Option<seq<Table>>, lines: seq<string>,
                                            quotes: (string, string) -> bool)
    ensures ReadLines(s.(quotesKey := quotes), doc, lines) == ReadLines(s, doc, lines)
    decreases |lines|
  {
    hide Trim, Read, Enclosed, TrimQuotes;
    if doc.Some? && lines != [] {
      assert ReadLine(s.(quotesKey := quotes), doc.value, lines[0]) == ReadLine(s, doc.value, lines[0]);
      QuotesAreWritten(s, ReadLine(s, doc.value, lines[0]), lines[1..], quotes);
    }
  }

  // ------------------------------------------------------------------ one host

  lemma LinesFit(s: Schema, a: seq<string>, b: seq<string>, c: seq<string>)
    requires AllFit(s, a + b + c)
    ensures AllFit(s, a) && AllFit(s, b) && AllFit(s, c)
  {
    var all := a + b + c;
    assert forall i | 0 <= i < |a| :: a[i] == all[i];
    assert forall i | 0 <= i < |b| :: b[i] == all[|a| + i];
    assert forall i | 0 <= i < |c| :: c[i] == all[|a| + |b| + i];
  }

  lemma BlankAndHeader(s: Schema, doc: seq<Table>, t: Table)
    requires s.fits("") && Name(t.name) && s.fits(Header(t)) && t.entries == []
    ensures ReadLines(s, Some(doc), [""] + [Header(t)]) == Some(doc + [t])
  {
    hide ReadLine, Header;
    BlankLine(s, Some(doc));
    ReadJoin(s, Some(doc), [""], [Header(t)]);
    OneHeader(s, doc, Header(t));
    ReadHeader(s, doc, t);
    assert t.(entries := []) == t;
  }

  /** Entries are read alike however their keys were written. */
  lemma ReadAs(s: Schema, w: Schema, doc: seq<Table>, t: Table, es: seq<Entry>, q: Printable)
    requires ReadsServices(s) && w == s.(quotesKey := w.quotesKey) && t.name == SECTION
    requires ValidEntries(s, SECTION, es) && AllFit(s, EntryLines(w, SECTION, es, q))
    ensures var back := EntriesBack(s, SECTION, es, q);
      ReadLines(s, Some(doc + [t]), EntryLines(w, SECTION, es, q))
      == if back.None? then None else Some(doc + [t.(entries := t.entries + back.value)])
  {
    QuotesAreWritten(s, Some(doc + [t]), EntryLines(w, SECTION, es, q), w.quotesKey);
    BackAlike(s, w, es, q);
    ReadEntries(w, doc, t, es, q);
  }

  lemma {:induction false} BackAlike(s: Schema, w: Schema, es: seq<Entry>, q: Printable)
    requires ReadsServices(s) && w == s.(quotesKey := w.quotesKey) && ValidEntries(s, SECTION, es)
    ensures ValidEntries(w, SECTION, es) && EntriesBack(w, SECTION, es, q) == EntriesBack(s, SECTION, es, q)
  {
    hide ReadBack, Name, Conforms;
    if es != [] {
      assert forall i | 0 <= i < |es| - 1 :: es[1..][i] == es[i + 1];
      BackAlike(s, w, es[1..], q);
    }
  }

  /** The table that a host is read back as. */
  function TableOf(s: Schema, b: Block): Table
    requires Saved(b)
  {
    Table(SECTION, true, FieldEntries(b.host, Expanded(b.host.source, s.home)) + RoleEntries(b.host, b.keys))
  }

  const HOST_TABLE := Table(SECTION, true, [])

  lemma HeaderOfHost()
    ensures Header(HOST_TABLE) == "[[services]]" && Name(SECTION)
  {
  }

  lemma HostIsRead(s: Schema, doc: seq<Table>, b: Block, q: Printable)
    requires ReadsServices(s) && Saved(b) && AllFit(s, HostLines(s, b, q))
    ensures ReadLines(s, Some(doc), HostLines(s, b, q))
      == if Back(s, b.host).None? then None else Some(doc + [TableOf(s, b)])
  {
    var h, t := b.host, HOST_TABLE;
    var fields, roles := FieldEntries(h, h.source), RoleEntries(h, b.keys);
    var header, first, second := "[[services]]", EntryLines(Bare(s), SECTION, fields, q),
                                 EntryLines(Quoted(s), SECTION, roles, q);
    hide ReadLine, EntryLines, FieldEntries, RoleEntries, EntriesBack, ValidEntry, Header, Marked, Expanded, Name;
    hide ReadLines, AllFit, Allowed;
    HeaderOfHost();
    LinesFit(s, [""] + [header], first, second);
    HeaderFits(s, header);
    BlankAndHeader(s, doc, t);
    FieldsBack(s, h, q);
    RolesBack(s, h, b.keys, q);
    ReadJoin(s, Some(doc), [""] + [header] + first, second);
    ReadJoin(s, Some(doc), [""] + [header], first);
    ReadAs(s, Bare(s), doc, t, fields, q);
    var read := FieldEntries(h, Expanded(h.source, s.home));
    if Back(s, h).None? {
      ErrorStays(s, second);
    } else {
      assert [] + read == read;
      ReadAs(s, Quoted(s), doc, t.(entries := read), roles, q);
    }
  }

  lemma HeaderFits(s: Schema, header: string)
    requires AllFit(s, [""] + [header])
    ensures s.fits(header)
  {
    assert ([""] + [header])[1] == header;
  }

  lemma TableIsHost(s: Schema, b: Block)
    requires Saved(b) && Back(s, b.host).Some?
    ensures AssignAll(NO_HOST, TableOf(s, b).entries) == Back(s, b.host)
  {
    var h := b.host;
    var start := Host(h.name, Expanded(h.source, s.home), map[]);
    FieldsAssigned(h, s.home);
    RolesAssigned(start, h, b.keys);
    AssignJoin(NO_HOST, FieldEntries(h, Expanded(h.source, s.home)), RoleEntries(h, b.keys));
    hide FieldEntries, RoleEntries, Expanded, Marked, ServiceName;
    assert forall key :: key in b.keys <==> key in h.roles;
    assert map[] + RolesOf(h, b.keys) == h.roles - FIELDS;
  }

  // ------------------------------------------------------------------ all hosts

  function HostsIn(bs: seq<Block>): seq<Host> {
    if bs == [] then [] else [bs[0].host] + HostsIn(bs[1..])
  }

  /** What becomes of all hosts; None if one of them is an error. */
  function AllBack(s: Schema, bs: seq<Block>): Option<seq<Host>> {
    if bs == [] then Some([])
    else
      var first, rest := Back(s, bs[0].host), AllBack(s, bs[1..]);
      if first.None? || rest.None? then None else Some([first.value] + rest.value)
  }

  function Both(a: Option<seq<Host>>, b: Option<seq<Host>>): Option<seq<Host>> {
    if a.None? || b.None? then None else Some(a.value + b.value)
  }

  lemma CollectOne(s: Schema, doc: seq<Table>, b: Block)
    requires Saved(b) && Back(s, b.host).Some?
    ensures Collected(doc + [TableOf(s, b)]) == Both(Collected(doc), Some([Back(s, b.host).value]))
  {
    TableIsHost(s, b);
    var more := doc + [TableOf(s, b)];
    assert more[..|more| - 1] == doc;
    hide AssignAll, FieldEntries, RoleEntries, Back;
  }

  lemma {:induction false} ServicesAreRead(s: Schema, doc: seq<Table>, bs: seq<Block>, q: Printable)
    requires ReadsServices(s) && forall b <- bs :: Saved(b)
    requires AllFit(s, ServicesLines(s, bs, q)) && Collected(doc).Some?
    ensures HostsOf(ReadLines(s, Some(doc), ServicesLines(s, bs, q))) == Both(Collected(doc), AllBack(s, bs))
    decreases |bs|
  {
    hide ReadLine, HostLines, Collected, Saved, Back, TableOf;
    if bs == [] {
      assert Collected(doc).value + [] == Collected(doc).value;
    } else {
      var first, rest := HostLines(s, bs[0], q), ServicesLines(s, bs[1..], q);
      BothFit(s, first, rest);
      HostIsRead(s, doc, bs[0], q);
      ReadJoin(s, Some(doc), first, rest);
      if Back(s, bs[0].host).None? {
        ErrorStays(s, rest);
      } else {
        CollectOne(s, doc, bs[0]);
        ServicesAreRead(s, doc + [TableOf(s, bs[0])], bs[1..], q);
        Regrouped(Collected(doc).value, Back(s, bs[0].host).value, AllBack(s, bs[1..]));
      }
    }
  }

  lemma BothFit(s: Schema, a: seq<string>, b: seq<string>)
    requires AllFit(s, a + b)
    ensures AllFit(s, a) && AllFit(s, b)
  {
    assert a + b == a + b + [];
    LinesFit(s, a, b, []);
  }

  lemma Regrouped(hosts: seq<Host>, h: Host, rest: Option<seq<Host>>)
    ensures rest.Some? ==> hosts + [h] + rest.value == hosts + ([h] + rest.value)
  {
  }

  lemma {:induction false} AllBackExactly(s: Schema, bs: seq<Block>)
    ensures AllBack(s, bs) == Some(HostsIn(bs)) <==> forall b <- bs :: Back(s, b.host) == Some(b.host)
  {
    hide Back;
    if bs != [] {
      AllBackExactly(s, bs[1..]);
      assert bs == [bs[0]] + bs[1..];
      assert HostsIn(bs)[1..] == HostsIn(bs[1..]);
    }
  }

  // -------------------------------------------------------------- the whole file

  /** No other table is one of the hosts. */
  predicate Elsewhere(doc: seq<Table>) {
    forall i | 0 <= i < |doc| :: doc[i].name != SECTION
  }

  lemma {:induction false} NothingCollected(doc: seq<Table>)
    requires Elsewhere(doc)
    ensures Collected(doc) == Some([])
  {
    if doc != [] { NothingCollected(doc[..|doc| - 1]); }
  }

  lemma {:induction false} BackIsElsewhere(s: Schema, doc: seq<Table>, q: Printable)
    requires Valid(s, doc) && Elsewhere(doc)
    ensures DocumentBack(s, doc, q).Some? ==> Elsewhere(DocumentBack(s, doc, q).value)
  {
    hide EntriesBack, ValidEntries, Name;
    if doc != [] {
      assert forall i | 0 <= i < |doc| - 1 :: doc[1..][i] == doc[i + 1];
      BackIsElsewhere(s, doc[1..], q);
    }
  }

  lemma LinesHoweverQuoted(s: Schema, w: Schema, es: seq<Entry>, q: Printable)
    requires ReadsServices(s) && w == s.(quotesKey := w.quotesKey) && ValidEntries(s, SECTION, es)
    ensures forall line <- EntryLines(w, SECTION, es, q) :: OneLine(line)
  {
    BackAlike(s, w, es, q);
    EntriesAreLines(w, SECTION, es, q);
  }

  lemma AreLines(a: seq<string>, b: seq<string>, c: seq<string>)
    requires forall line <- a :: OneLine(line)
    requires forall line <- b :: OneLine(line)
    requires forall line <- c :: OneLine(line)
    ensures forall line <- a + b + c :: OneLine(line)
  {
  }

  lemma FieldsAreLines(s: Schema, h: Host, q: Printable)
    requires ReadsServices(s)
    ensures forall line <- EntryLines(Bare(s), SECTION, FieldEntries(h, h.source), q) :: OneLine(line)
  {
    FieldsBack(s, h, q);
    LinesHoweverQuoted(s, Bare(s), FieldEntries(h, h.source), q);
  }

  lemma RolesAreLines(s: Schema, h: Host, keys: seq<string>, q: Printable)
    requires ReadsServices(s) && Allowed(h, keys)
    ensures forall line <- EntryLines(Quoted(s), SECTION, RoleEntries(h, keys), q) :: OneLine(line)
  {
    RolesBack(s, h, keys, q);
    LinesHoweverQuoted(s, Quoted(s), RoleEntries(h, keys), q);
  }

  lemma HostIsLines(s: Schema, b: Block, q: Printable)
    requires ReadsServices(s) && Saved(b)
    ensures forall line <- HostLines(s, b, q) :: OneLine(line)
  {
    var first := EntryLines(Bare(s), SECTION, FieldEntries(b.host, b.host.source), q);
    var second := EntryLines(Quoted(s), SECTION, RoleEntries(b.host, b.keys), q);
    hide EntryLines, FieldEntries, RoleEntries, ReadsServices, Bare, Quoted, Allowed;
    FieldsAreLines(s, b.host, q);
    RolesAreLines(s, b.host, b.keys, q);
    AreLines([""] + ["[[services]]"], first, second);
  }

  lemma {:induction false} ServicesAreLines(s: Schema, bs: seq<Block>, q: Printable)
    requires ReadsServices(s) && forall b <- bs :: Saved(b)
    ensures forall line <- ServicesLines(s, bs, q) :: OneLine(line)
  {
    hide HostLines, Saved, ReadsServices;
    if bs != [] {
      HostIsLines(s, bs[0], q);
      ServicesAreLines(s, bs[1..], q);
    }
  }

  /** What is read of a file: the hosts as `Back` says, if everything else is read. */
  lemma ServicesOfFile(s: Schema, doc: seq<Table>, bs: seq<Block>, q: Printable)
    requires ReadsServices(s) && Valid(s, doc) && Elsewhere(doc) && forall b <- bs :: Saved(b)
    ensures HostsOf(Parsed(s, FileText(s, doc, bs, q)))
      == if AllFit(s, FileLines(s, doc, bs, q)) && DocumentBack(s, doc, q).Some? then AllBack(s, bs) else None
  {
    var a, b := DocumentLines(s, doc, q), ServicesLines(s, bs, q);
    DocumentIsLines(s, doc, q);
    ServicesAreLines(s, bs, q);
    assert s.fits("");
    hide DocumentLines, ServicesLines, DocumentBack, ReadLine, ReadLines, Valid, AllBack, ReadsServices, Elsewhere;
    hide Collected, Saved;
    Lines.SplitOfJoin(a + b + [""], '\n');
    if AllFit(s, a + b) {
      BothFit(s, a, b);
      ReadJoin(s, Some([]), a + b, [""]);
      ReadJoin(s, Some([]), a, b);
      BlankLine(s, ReadLines(s, Some([]), a + b));
      FileRead(s, doc, bs, q);
    } else {
      var i :| 0 <= i < |a + b| && !s.fits((a + b)[i]);
      assert !s.fits((a + b + [""])[i]);
      UnfitLine(s, Some([]), a + b + [""]);
    }
  }

  lemma FileRead(s: Schema, doc: seq<Table>, bs: seq<Block>, q: Printable)
    requires ReadsServices(s) && Valid(s, doc) && Elsewhere(doc) && forall b <- bs :: Saved(b)
    requires AllFit(s, DocumentLines(s, doc, q)) && AllFit(s, ServicesLines(s, bs, q))
    ensures HostsOf(ReadLines(s, ReadLines(s, Some([]), DocumentLines(s, doc, q)), ServicesLines(s, bs, q)))
      == if DocumentBack(s, doc, q).Some? then AllBack(s, bs) else None
  {
    var back := DocumentBack(s, doc, q);
    hide DocumentLines, ServicesLines, DocumentBack, ReadLines, AllBack, Collected, Saved, AllFit;
    ReadDocument(s, [], doc, q);
    if back.Some? {
      assert [] + back.value == back.value;
      BackIsElsewhere(s, doc, q);
      NothingCollected(back.value);
      ServicesAreRead(s, back.value, bs, q);
      if AllBack(s, bs).Some? { assert [] + AllBack(s, bs).value == AllBack(s, bs).value; }
    } else {
      ErrorStays(s, ServicesLines(s, bs, q));
    }
  }

  /** A host that comes back as it is. */
  predicate HostKept(h: Host, home: Home) {
    && !Marked(h.name) && !Marked(h.source) && Expanded(h.source, home) == h.source
    && "name" !in h.roles && "source" !in h.roles
  }

  /** The hosts of a saved configuration come back exactly when the file can be
      read, no name or source is cut off or expanded, and no service is called
      like a field of its host. */
  lemma ServicesRoundTripExactly(s: Schema, doc: seq<Table>, bs: seq<Block>, q: Printable)
    requires ReadsServices(s) && Valid(s, doc) && Elsewhere(doc) && forall b <- bs :: Saved(b)
    ensures HostsOf(Parsed(s, FileText(s, doc, bs, q))) == Some(HostsIn(bs)) <==>
      AllFit(s, FileLines(s, doc, bs, q)) && DocumentBack(s, doc, q).Some?
      && forall b <- bs :: HostKept(b.host, s.home)
  {
    hide FileText, FileLines, Parsed, AllFit, DocumentBack, Valid, Elsewhere, Saved, AllBack, Back, HostKept;
    ServicesOfFile(s, doc, bs, q);
    AllBackExactly(s, bs);
    forall b <- bs ensures Back(s, b.host) == Some(b.host) <==> HostKept(b.host, s.home) {
      HostBackExactly(s, b.host);
    }
  }

  lemma HostBackExactly(s: Schema, h: Host)
    ensures Back(s, h) == Some(h) <==> HostKept(h, s.home)
  {
    hide Marked, Expanded;
    if "name" !in h.roles && "source" !in h.roles {
      assert h.roles - FIELDS == h.roles;
    } else {
      assert "name" in FIELDS && "source" in FIELDS;
    }
  }

  // ---------------------------------------------------------------- a witness

  /** A host "h" with one service, called like a field. */
  function OneService(service: string, role: string): (b: Block)
    requires service in FIELDS && role in ROLES
    ensures Saved(b)
  {
    Block(Host("h", "", map[service := role]), [service])
  }

  lemma FieldIsTaken(s: Schema, service: string, role: string)
    requires service in FIELDS && role in ROLES
    ensures Back(s, OneService(service, role).host)
      == Some(if service == "name" then Host(role, "", map[]) else Host("h", role, map[]))
  {
    var h := OneService(service, role).host;
    assert h.roles - FIELDS == map[];
    assert !Marked("h") && !Marked("");
    NotATilde(s.home);
  }

  lemma FileOfOne(s: Schema, b: Block, q: Printable)
    requires ReadsServices(s) && Saved(b) && Back(s, b.host).Some? && AllFit(s, FileLines(s, [], [b], q))
    ensures HostsOf(Parsed(s, FileText(s, [], [b], q))) == Some([Back(s, b.host).value])
  {
    assert DocumentBack(s, [], q).Some?;
    hide Parsed, FileText, FileLines, AllFit, DocumentBack, Saved, Back;
    ServicesOfFile(s, [], [b], q);
    assert [b][1..] == [] && AllBack(s, []) == Some([]);
    assert [Back(s, b.host).value] + [] == [Back(s, b.host).value];
  }

  /** A service may be called "name" or "source": it is saved, and read back as that
      field of its host.  As a source it is no absolute path, so that the
      configuration is refused from then on. */
  lemma ServiceTakesField(s: Schema, service: string, role: string, q: Printable)
    requires ReadsServices(s) && service in FIELDS && role in ROLES
    requires AllFit(s, FileLines(s, [], [OneService(service, role)], q))
    ensures HostsOf(Parsed(s, FileText(s, [], [OneService(service, role)], q)))
      == Some([if service == "name" then Host(role, "", map[]) else Host("h", role, map[])])
  {
    hide FileText, FileLines, Parsed, AllFit, Back, OneService, Saved, ReadsServices;
    FieldIsTaken(s, service, role);
    FileOfOne(s, OneService(service, role), q);
  }

  // ----------------------------------------------------------- writing it out

  lemma ServiceNameIsPlain(key: string, q: Printable)
    requires ServiceName(key)
    ensures Quote(key, q) == "\"" + key + "\""
  {
    EscapeLength(key, q);
  }

  lemma BareEntry(s: Schema, key: string, text: string, q: Printable)
    ensures Broken(EntryLines(Bare(s), SECTION, [Entry(key, Text(text))], q)) == key + " = " + Quote(text, q) + "\n"
  {
    hide Quote;
    var e := Entry(key, Text(text));
    assert [e][1..] == [];
    var line := EntryLine(Bare(s), SECTION, e, q);
    assert EntryLines(Bare(s), SECTION, [e], q) == [line] && [line][1..] == [];
  }

  /** The fields of a host, if they are not empty. */
  method RenderFields(s: Schema, h: Host, q: Printable) returns (text: string)
    ensures text == Broken(EntryLines(Bare(s), SECTION, FieldEntries(h, h.source), q))
  {
    text := "";
    hide Quote, EntryLines, Broken, Bare;
    ghost var source := if h.source == "" then [] else [Entry("source", Text(h.source))];
    ghost var name := if h.name == "" then [] else [Entry("name", Text(h.name))];
    NothingWritten(Bare(s), SECTION, q);
    if h.source != "" {
      text := text + "source = " + Quote(h.source, q) + "\n";
      BareEntry(s, "source", h.source, q);
    }
    ghost var first := text;
    if h.name != "" {
      text := text + "name = " + Quote(h.name, q) + "\n";
      BareEntry(s, "name", h.name, q);
    }
    EntryLinesJoin(Bare(s), SECTION, source, name, q);
    BrokenJoin(EntryLines(Bare(s), SECTION, source, q), EntryLines(Bare(s), SECTION, name, q));
  }

  lemma RoleLine(s: Schema, key: string, role: string, q: Printable)
    requires ServiceName(key)
    ensures EntryLine(Quoted(s), SECTION, Entry(key, Text(role)), q) == Quote(key, q) + " = " + Quote(role, q)
  {
    ServiceNameIsPlain(key, q);
    hide Quote;
  }

  /** The services of a host, in the given order. */
  method RenderRoles(s: Schema, h: Host, keys: seq<string>, q: Printable) returns (text: string)
    requires Allowed(h, keys)
    ensures text == Broken(EntryLines(Quoted(s), SECTION, RoleEntries(h, keys), q))
  {
    text := "";
    ghost var t := Table(SECTION, true, RoleEntries(h, keys));
    hide Quote, EntryLines, EntryLine, Broken, ServiceName, Quoted;
    NothingWritten(Quoted(s), SECTION, q);
    assert t.entries[..0] == [];
    for i := 0 to |keys|
      invariant text == Broken(EntryLines(Quoted(s), SECTION, t.entries[..i], q))
    {
      var line := Quote(keys[i], q) + " = " + Quote(h.roles[keys[i]], q);
      text := text + line + "\n";
      RoleLine(s, keys[i], h.roles[keys[i]], q);
      OneMoreEntry(Quoted(s), t, i, q);
    }
    assert t.entries[..|keys|] == t.entries;
  }

  lemma BrokenHost(s: Schema, b: Block, q: Printable)
    requires Saved(b)
    ensures Broken(HostLines(s, b, q)) == "\n[[services]]\n"
      + Broken(EntryLines(Bare(s), SECTION, FieldEntries(b.host, b.host.source), q))
      + Broken(EntryLines(Quoted(s), SECTION, RoleEntries(b.host, b.keys), q))
  {
    var first := EntryLines(Bare(s), SECTION, FieldEntries(b.host, b.host.source), q);
    var second := EntryLines(Quoted(s), SECTION, RoleEntries(b.host, b.keys), q);
    hide EntryLines, FieldEntries, RoleEntries, Bare, Quoted, Saved, Broken;
    BrokenHeader();
    BrokenJoin([""] + ["[[services]]"] + first, second);
    BrokenJoin([""] + ["[[services]]"], first);
  }

  lemma BrokenHeader()
    ensures Broken([""] + ["[[services]]"]) == "\n[[services]]\n"
  {
    var last := ["[[services]]"];
    assert ([""] + last)[1..] == last && last[1..] == [];
    assert Broken(last) == "[[services]]\n";
  }

  lemma {:induction false} ServicesLinesJoin(s: Schema, a: seq<Block>, b: seq<Block>, q: Printable)
    requires (forall x <- a :: Saved(x)) && forall x <- b :: Saved(x)
    ensures ServicesLines(s, a + b, q) == ServicesLines(s, a, q) + ServicesLines(s, b, q)
  {
    hide HostLines, Saved;
    if a == [] {
      assert a + b == b;
    } else {
      assert (a + b)[1..] == a[1..] + b;
      ServicesLinesJoin(s, a[1..], b, q);
    }
  }

  lemma OneMoreHost(s: Schema, bs: seq<Block>, i: nat, q: Printable)
    requires i < |bs| && forall b <- bs :: Saved(b)
    ensures Broken(ServicesLines(s, bs[..i + 1], q))
      == Broken(ServicesLines(s, bs[..i], q)) + Broken(HostLines(s, bs[i], q))
  {
    var a, b := bs[..i], [bs[i]];
    hide HostLines, Saved;
    assert bs[..i + 1] == a + b && b[1..] == [];
    ServicesLinesJoin(s, a, b, q);
    assert ServicesLines(s, b, q) == HostLines(s, bs[i], q);
    BrokenJoin(ServicesLines(s, a, q), HostLines(s, bs[i], q));
  }

  /** The end of renderConfig: after the other tables, every host. */
  method RenderServices(s: Schema, doc: seq<Table>, bs: seq<Block>, q: Printable) returns (text: string)
    requires forall b <- bs :: Saved(b)
    ensures text == FileText(s, doc, bs, q)
    ensures ReadsServices(s) && Valid(s, doc) && Elsewhere(doc) ==>
      (HostsOf(Parsed(s, text)) == Some(HostsIn(bs)) <==>
       AllFit(s, FileLines(s, doc, bs, q)) && DocumentBack(s, doc, q).Some?
       && forall b <- bs :: HostKept(b.host, s.home))
  {
    hide HostLines, Saved, EntryLines, FieldEntries, RoleEntries, DocumentLines, Parsed, AllFit, DocumentBack, Valid;
    hide ReadsServices, Elsewhere, HostKept, Broken, DocumentText;
    text := RenderDocument(s, doc, q);
    TextIsBroken(s, doc, q);
    ghost var first := text;
    assert bs[..0] == [];
    NothingAdded(s, q);
    for i := 0 to |bs|
      invariant text == first + Broken(ServicesLines(s, bs[..i], q))
    {
      assert Saved(bs[i]);
      AllowedToBeSaved(bs[i]);
      var fields := RenderFields(s, bs[i].host, q);
      var roles := RenderRoles(s, bs[i].host, bs[i].keys, q);
      text := text + "\n[[services]]\n" + fields + roles;
      BrokenHost(s, bs[i], q);
      OneMoreHost(s, bs, i, q);
    }
    assert bs[..|bs|] == bs;
    BrokenJoin(DocumentLines(s, doc, q), ServicesLines(s, bs, q));
    BrokenIsJoined(FileLines(s, doc, bs, q));
    if ReadsServices(s) && Valid(s, doc) && Elsewhere(doc) { ServicesRoundTripExactly(s, doc, bs, q); }
  }

  lemma TextIsBroken(s: Schema, doc: seq<Table>, q: Printable)
    ensures DocumentText(s, doc, q) == Broken(DocumentLines(s, doc, q))
  {
    hide DocumentLines;
    BrokenIsJoined(DocumentLines(s, doc, q));
  }

  lemma AllowedToBeSaved(b: Block)
    requires Saved(b)
    ensures Allowed(b.host, b.keys)
  {
  }

  lemma NothingAdded(s: Schema, q: Printable)
    ensures Broken(ServicesLines(s, [], q)) == ""
  {
  }
}
