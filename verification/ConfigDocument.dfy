/** cli/config.go: a configuration file, rendered and parsed line by line.  Which
    settings there are, and of what kind, is a schema. */
module ConfigDocument {
  import opened Wrappers
  import opened Quoting
  import opened BackupSize
  import opened Texts
  import opened ConfigValues
  import Lines

  datatype Entry = Entry(key: string, value: Setting)

  /** A section, or one table of an array. */
  datatype Table = Table(name: string, isArray: bool, entries: seq<Entry>)

  /** The kind of a setting by section and key, the sections that take quoted
      keys, the keys that are written so, and the lines that the scanner's buffer
      holds. */
  datatype Schema = Schema(
    kind: (string, string) -> Option<Kind>, takesQuotedKeys: string -> bool, quotesKey: (string, string) -> bool,
    home: Home, fits: string -> bool)

  // ---------------------------------------------------------------- the writer

  function Header(t: Table): string {
    if t.isArray then "[[" + t.name + "]]" else "[" + t.name + "]"
  }

  function KeyText(s: Schema, section: string, key: string): string {
    if s.quotesKey(section, key) then "\"" + key + "\"" else key
  }

  function EntryLine(s: Schema, section: string, e: Entry, q: Printable): string {
    KeyText(s, section, e.key) + " = " + Render(e.value, q)
  }

  function EntryLines(s: Schema, section: string, es: seq<Entry>, q: Printable): seq<string> {
    if es == [] then [] else [EntryLine(s, section, es[0], q)] + EntryLines(s, section, es[1..], q)
  }

  function TableLines(s: Schema, t: Table, q: Printable): seq<string> {
    [Header(t)] + EntryLines(s, t.name, t.entries, q) + [""]
  }

  function DocumentLines(s: Schema, doc: seq<Table>, q: Printable): seq<string> {
    if doc == [] then [] else TableLines(s, doc[0], q) + DocumentLines(s, doc[1..], q)
  }

  function DocumentText(s: Schema, doc: seq<Table>, q: Printable): string {
    Lines.Join(DocumentLines(s, doc, q) + [""], '\n')
  }

  // ---------------------------------------------------------------- the parser

  /** strings.Trim of double quotes. */
  function TrimQuotes(s: string): string {
    if s != "" && s[0] == '"' then TrimQuotes(s[1..])
    else if s != "" && s[|s| - 1] == '"' then TrimQuotes(s[..|s| - 1])
    else s
  }

  function KeyOf(s: Schema, section: string, written: string): string {
    if s.takesQuotedKeys(section) then TrimQuotes(written) else written
  }

  predicate Enclosed(line: string, double: bool) {
    if double then |line| >= 4 && "[[" <= line && HasSuffix(line, "]]")
    else |line| >= 2 && line[0] == '[' && line[|line| - 1] == ']'
  }

  /** One setting of the last table; None is an error. */
  function ReadSetting(s: Schema, doc: seq<Table>, line: string): Option<seq<Table>> {
    var i := IndexOf(line, '=');
    if i == |line| || doc == [] then None
    else
      var last := doc[|doc| - 1];
      var key := KeyOf(s, last.name, Trim(line[..i]));
      var kind := s.kind(last.name, key);
      if kind.None? then None
      else
        var v := Read(kind.value, Uncommented(line[i + 1..]), s.home);
        if v.None? then None
        else Some(doc[..|doc| - 1] + [last.(entries := last.entries + [Entry(key, v.value)])])
  }

  /** What the parser does with one line; None is an error. */
  function ReadLine(s: Schema, doc: seq<Table>, raw: string): Option<seq<Table>> {
    var line := Trim(raw);
    if !s.fits(raw) then None
    else if line == "" || line[0] == '#' then Some(doc)
    else if Enclosed(line, true) then Some(doc + [Table(Trim(line[2..|line| - 2]), true, [])])
    else if Enclosed(line, false) then Some(doc + [Table(Trim(line[1..|line| - 1]), false, [])])
    else ReadSetting(s, doc, line)
  }

  function ReadLines(s: Schema, doc: Option<seq<Table>>, lines: seq<string>): Option<seq<Table>>
    decreases |lines|
  {
    if doc.None? || lines == [] then doc else ReadLines(s, ReadLine(s, doc.value, lines[0]), lines[1..])
  }

  function Parsed(s: Schema, text: string): Option<seq<Table>> {
    ReadLines(s, Some([]), Lines.Split(text, '\n'))
  }

  /** parseConfigUnchecked, up to the fields that the settings go to. */
  method ParseDocument(s: Schema, text: string) returns (r: Option<seq<Table>>)
    ensures r == Parsed(s, text)
  {
    var lines := Lines.Split(text, '\n');
    var doc: seq<Table> := [];
    for i := 0 to |lines|
      invariant Parsed(s, text) == ReadLines(s, Some(doc), lines[i..])
    {
      assert lines[i..][0] == lines[i] && lines[i..][1..] == lines[i + 1..];
      if !s.fits(lines[i]) { return None; }
      var line := Trim(lines[i]);
      if line == "" || line[0] == '#' { continue; }
      if Enclosed(line, true) {
        doc := doc + [Table(Trim(line[2..|line| - 2]), true, [])];
        continue;
      }
      if Enclosed(line, false) {
        doc := doc + [Table(Trim(line[1..|line| - 1]), false, [])];
        continue;
      }
      var next := ReadSetting(s, doc, line);
      if next.None? { return None; }
      doc := next.value;
    }
    return Some(doc);
  }

  // ------------------------------------------------------- what can be written

  predicate NameChar(c: char) {
    'a' <= c <= 'z' || 'A' <= c <= 'Z' || '0' <= c <= '9' || c in {'-', '_', '.'}
  }

  predicate Name(s: string) {
    s != "" && forall i | 0 <= i < |s| :: NameChar(s[i])
  }

  predicate ValidEntry(s: Schema, section: string, e: Entry) {
    && Name(e.key)
    && (s.quotesKey(section, e.key) ==> s.takesQuotedKeys(section))
    && s.kind(section, e.key).Some? && Conforms(s.kind(section, e.key).value, e.value)
  }

  function KindOf(s: Schema, section: string, e: Entry): Kind
    requires ValidEntry(s, section, e)
  {
    s.kind(section, e.key).value
  }

  predicate ValidEntries(s: Schema, section: string, es: seq<Entry>) {
    forall i | 0 <= i < |es| :: ValidEntry(s, section, es[i])
  }

  predicate ValidTable(s: Schema, t: Table) {
    Name(t.name) && ValidEntries(s, t.name, t.entries)
  }

  predicate Valid(s: Schema, doc: seq<Table>) {
    s.fits("") && forall i | 0 <= i < |doc| :: ValidTable(s, doc[i])
  }

  /** The entries as they are read back; None if one is an error. */
  function EntriesBack(s: Schema, section: string, es: seq<Entry>, q: Printable): Option<seq<Entry>>
    requires ValidEntries(s, section, es)
  {
    if es == [] then Some([])
    else
      var v := ReadBack(KindOf(s, section, es[0]), es[0].value, s.home, q);
      var rest := EntriesBack(s, section, es[1..], q);
      if v.None? || rest.None? then None else Some([Entry(es[0].key, v.value)] + rest.value)
  }

  function DocumentBack(s: Schema, doc: seq<Table>, q: Printable): Option<seq<Table>>
    requires Valid(s, doc)
  {
    if doc == [] then Some([])
    else
      var es, rest := EntriesBack(s, doc[0].name, doc[0].entries, q), DocumentBack(s, doc[1..], q);
      if es.None? || rest.None? then None else Some([doc[0].(entries := es.value)] + rest.value)
  }

  predicate AllFit(s: Schema, lines: seq<string>) {
    forall i | 0 <= i < |lines| :: s.fits(lines[i])
  }

  // ----------------------------------------------------------------- one line

  lemma {:induction false} QuotesTrimmed(s: string)
    requires Name(s)
    ensures TrimQuotes(s) == s && TrimQuotes("\"" + s + "\"") == s
  {
    var quoted := "\"" + s + "\"";
    assert s[0] != '"' && s[|s| - 1] != '"';
    assert quoted[1..] == s + "\"";
    assert (s + "\"")[..|s|] == s;
    assert TrimQuotes(s + "\"") == TrimQuotes(s);
  }

  lemma NamesAreTrimmed(s: string)
    requires Name(s)
    ensures s != "" && Trim(s) == s && '\n' !in s && '=' !in s && !Space(s[0]) && !Space(s[|s| - 1])
  {
    TrimLeavesTrimmed(s);
    assert forall i | 0 <= i < |s| :: !Space(s[i]);
  }

  lemma ReadHeader(s: Schema, doc: seq<Table>, t: Table)
    requires Name(t.name) && s.fits(Header(t))
    ensures ReadLine(s, doc, Header(t)) == Some(doc + [t.(entries := [])])
  {
    var line := Header(t);
    hide Trim, Name, ReadSetting;
    NamesAreTrimmed(t.name);
    TrimLeavesTrimmed(line);
    assert t.name != "" && t.name[0] != '[' by { NameStarts(t.name); }
    if t.isArray {
      assert line[2..|line| - 2] == t.name;
    } else {
      assert line[1] == t.name[0];
      assert line[1..|line| - 1] == t.name;
    }
  }

  lemma NameStarts(s: string)
    requires Name(s)
    ensures s != "" && s[0] != '[' && s[0] != '#'
  {
    assert NameChar(s[0]);
  }

  lemma RenderedShape(v: Setting, q: Printable)
    ensures var r := Render(v, q); r != "" && r[0] != '#' && !Space(r[|r| - 1])
  {
    hide Escape, QuotedList, FormatFrom, Decimal;
    if v.Number? {
      var digits := Decimal(if v.number < 0 then -v.number else v.number);
      ValueOfDecimal(if v.number < 0 then -v.number else v.number);
      assert IsDigit(digits[0]) && IsDigit(digits[|digits| - 1]);
    }
  }

  lemma UncommentedAfterSpace(r: string)
    requires r != "" && r[0] != '#'
    ensures Uncommented(" " + r) == Uncommented(r)
  {
    var s, k := " " + r, CutAt(r);
    assert s[1..] == r && !MarkAt(s, 0);
    assert CutAt(s) == 1 + k;
    assert s[..1 + k] == " " + r[..k];
    assert (" " + r[..k])[1..] == r[..k];
  }

  lemma KeyIsRead(s: Schema, section: string, key: string)
    requires Name(key) && (s.quotesKey(section, key) ==> s.takesQuotedKeys(section))
    ensures var text := KeyText(s, section, key);
      && KeyOf(s, section, text) == key
      && text != "" && Trimmed(text) && '=' !in text && text[0] != '[' && text[0] != '#'
  {
    QuotesTrimmed(key);
    NamesAreTrimmed(key);
    assert NameChar(key[0]);
  }

  lemma SettingLine(s: Schema, doc: seq<Table>, line: string)
    requires s.fits(line) && Trim(line) == line && line != "" && line[0] != '[' && line[0] != '#'
    ensures ReadLine(s, doc, line) == ReadSetting(s, doc, line)
  {
    hide ReadSetting, Trim;
  }

  /** The document with one more entry in its last table. */
  function WithEntry(doc: seq<Table>, key: string, v: Option<Setting>): Option<seq<Table>>
    requires doc != []
  {
    var last := doc[|doc| - 1];
    if v.None? then None else Some(doc[..|doc| - 1] + [last.(entries := last.entries + [Entry(key, v.value)])])
  }

  predicate EndsIn(doc: seq<Table>, section: string) {
    doc != [] && doc[|doc| - 1].name == section
  }

  lemma SettingIsRead(s: Schema, doc: seq<Table>, section: string, line: string, i: nat, key: string)
    requires EndsIn(doc, section) && i == IndexOf(line, '=') < |line|
    requires KeyOf(s, section, Trim(line[..i])) == key && s.kind(section, key).Some?
    ensures ReadSetting(s, doc, line)
      == WithEntry(doc, key, Read(s.kind(section, key).value, Uncommented(line[i + 1..]), s.home))
  {
    hide Read, Uncommented, Trim, KeyOf, IndexOf;
  }

  lemma ReadEntry(s: Schema, doc: seq<Table>, section: string, e: Entry, q: Printable)
    requires EndsIn(doc, section) && ValidEntry(s, section, e) && s.fits(EntryLine(s, section, e, q))
    ensures ReadLine(s, doc, EntryLine(s, section, e, q))
      == WithEntry(doc, e.key, ReadBack(KindOf(s, section, e), e.value, s.home, q))
  {
    var line := EntryLine(s, section, e, q);
    hide KeyText, KeyOf, Render, Read, Uncommented, Trim, IndexOf, EntryLine, ReadLine, Name, Conforms;
    hide ReadSetting, WithEntry, ReadBack, KindOf, ValidEntry;
    BackOfEntry(s, section, e, q);
    EntryShape(s, section, e, q);
    SettingLine(s, doc, line);
    SettingIsRead(s, doc, section, line, IndexOf(line, '='), e.key);
  }

  lemma BackOfEntry(s: Schema, section: string, e: Entry, q: Printable)
    requires ValidEntry(s, section, e)
    ensures s.kind(section, e.key).Some? && KindOf(s, section, e) == s.kind(section, e.key).value
    ensures ReadBack(KindOf(s, section, e), e.value, s.home, q)
      == Read(s.kind(section, e.key).value, Uncommented(Render(e.value, q)), s.home)
  {
    hide Read, Uncommented, Render, Conforms, Name;
  }

  /** How the parser takes the line of an entry apart. */
  lemma EntryShape(s: Schema, section: string, e: Entry, q: Printable)
    requires ValidEntry(s, section, e)
    ensures var line := EntryLine(s, section, e, q);
      var i := IndexOf(line, '=');
      && line != "" && line[0] != '[' && line[0] != '#' && Trim(line) == line && i < |line|
      && KeyOf(s, section, Trim(line[..i])) == e.key && Uncommented(line[i + 1..]) == Uncommented(Render(e.value, q))
  {
    var text, r := KeyText(s, section, e.key), Render(e.value, q);
    hide KeyText, KeyOf, Render, Uncommented, Name;
    KeyIsRead(s, section, e.key);
    RenderedShape(e.value, q);
    var line := EntryLine(s, section, e, q);
    assert line == (text + " ") + ['='] + (" " + r);
    assert line[0] == text[0] && line[|line| - 1] == r[|r| - 1];
    TrimLeavesTrimmed(line);
    IndexOfFirst(text + " ", '=', " " + r);
    assert line[..|text| + 1] == text + " " && line[|text| + 2..] == " " + r;
    TrimmedBefore(text);
    UncommentedAfterSpace(r);
  }

  lemma TrimmedBefore(text: string)
    requires text != "" && Trimmed(text)
    ensures Trim(text + " ") == text
  {
    TrimRightOfJoin(text, " ");
    assert (text + " ")[0] == text[0];
    TrimLeavesTrimmed(text);
  }

  // --------------------------------------------------------- the whole document

  lemma {:induction false} ErrorStays(s: Schema, lines: seq<string>)
    ensures ReadLines(s, None, lines) == None
  {
  }

  lemma {:induction false} ReadJoin(s: Schema, doc: Option<seq<Table>>, a: seq<string>, b: seq<string>)
    ensures ReadLines(s, doc, a + b) == ReadLines(s, ReadLines(s, doc, a), b)
    decreases |a|
  {
    hide ReadLine;
    if a == [] {
      assert a + b == b;
    } else if doc.Some? {
      assert (a + b)[1..] == a[1..] + b;
      ReadJoin(s, ReadLine(s, doc.value, a[0]), a[1..], b);
    }
  }

  lemma {:induction false} ReadEntries(s: Schema, doc: seq<Table>, t: Table, es: seq<Entry>, q: Printable)
    requires ValidEntries(s, t.name, es)
    requires AllFit(s, EntryLines(s, t.name, es, q))
    ensures var back := EntriesBack(s, t.name, es, q);
      ReadLines(s, Some(doc + [t]), EntryLines(s, t.name, es, q))
      == if back.None? then None else Some(doc + [t.(entries := t.entries + back.value)])
    decreases |es|
  {
    hide ReadLine, EntryLine, ReadBack;
    var lines := EntryLines(s, t.name, es, q);
    if es == [] {
      assert t.(entries := t.entries + []) == t;
    } else {
      assert s.fits(lines[0]) && lines[1..] == EntryLines(s, t.name, es[1..], q);
      ReadEntry(s, doc + [t], t.name, es[0], q);
      assert (doc + [t])[..|doc|] == doc;
      var v := ReadBack(KindOf(s, t.name, es[0]), es[0].value, s.home, q);
      if v.Some? {
        var next := t.(entries := t.entries + [Entry(es[0].key, v.value)]);
        ReadEntries(s, doc, next, es[1..], q);
        Appended(t.entries, Entry(es[0].key, v.value), EntriesBack(s, t.name, es[1..], q));
      }
    }
  }

  lemma Appended(a: seq<Entry>, e: Entry, back: Option<seq<Entry>>)
    ensures back.Some? ==> a + [e] + back.value == a + ([e] + back.value)
  {
  }

  lemma ReadTable(s: Schema, doc: seq<Table>, t: Table, q: Printable)
    requires s.fits("") && ValidTable(s, t) && AllFit(s, TableLines(s, t, q))
    ensures var back := EntriesBack(s, t.name, t.entries, q);
      ReadLines(s, Some(doc), TableLines(s, t, q))
      == if back.None? then None else Some(doc + [t.(entries := back.value)])
  {
    var es := EntryLines(s, t.name, t.entries, q);
    var lines := TableLines(s, t, q);
    assert lines[0] == Header(t) && forall i | 0 <= i < |es| :: es[i] == lines[i + 1];
    hide ReadLine, EntryLine, ValidEntry, Header, EntryLines, EntriesBack;
    ReadHeader(s, doc, t);
    ReadEntries(s, doc, t.(entries := []), t.entries, q);
    var back := EntriesBack(s, t.name, t.entries, q);
    if back.Some? { assert [] + back.value == back.value; }
    OneHeader(s, doc, Header(t));
    ReadJoin(s, Some(doc), [Header(t)], es);
    ReadJoin(s, Some(doc), [Header(t)] + es, [""]);
    BlankLine(s, ReadLines(s, Some(doc), [Header(t)] + es));
  }

  lemma OneHeader(s: Schema, doc: seq<Table>, line: string)
    ensures ReadLines(s, Some(doc), [line]) == ReadLine(s, doc, line)
  {
    hide ReadLine;
    assert [line][1..] == [];
  }

  lemma BlankLine(s: Schema, doc: Option<seq<Table>>)
    requires s.fits("")
    ensures ReadLines(s, doc, [""]) == doc
  {
    if doc.Some? { OneHeader(s, doc.value, ""); }
  }

  lemma {:induction false} ReadDocument(s: Schema, before: seq<Table>, doc: seq<Table>, q: Printable)
    requires Valid(s, doc) && AllFit(s, DocumentLines(s, doc, q))
    ensures var back := DocumentBack(s, doc, q);
      ReadLines(s, Some(before), DocumentLines(s, doc, q)) == if back.None? then None else Some(before + back.value)
    decreases |doc|
  {
    hide ReadLine, TableLines, ValidEntries, EntriesBack;
    if doc == [] {
      assert before + [] == before;
    } else {
      var first, rest := TableLines(s, doc[0], q), DocumentLines(s, doc[1..], q);
      var lines := DocumentLines(s, doc, q);
      assert forall i | 0 <= i < |first| :: first[i] == lines[i];
      assert forall i | 0 <= i < |rest| :: rest[i] == lines[|first| + i];
      assert ValidTable(s, doc[0]);
      assert Valid(s, doc[1..]) by { assert forall i | 0 <= i < |doc| - 1 :: doc[1..][i] == doc[i + 1]; }
      ReadTable(s, before, doc[0], q);
      ReadJoin(s, Some(before), first, rest);
      var es := EntriesBack(s, doc[0].name, doc[0].entries, q);
      if es.Some? {
        ReadDocument(s, before + [doc[0].(entries := es.value)], doc[1..], q);
        Joined(before, doc[0].(entries := es.value), DocumentBack(s, doc[1..], q));
      } else {
        ErrorStays(s, rest);
      }
    }
  }

  lemma Joined(a: seq<Table>, t: Table, back: Option<seq<Table>>)
    ensures back.Some? ==> a + [t] + back.value == a + ([t] + back.value)
  {
  }

  // ------------------------------------------------------- lines that do not fit

  lemma {:induction false} UnfitLine(s: Schema, doc: Option<seq<Table>>, lines: seq<string>)
    requires !AllFit(s, lines)
    ensures ReadLines(s, doc, lines) == None
    decreases |lines|
  {
    hide ReadSetting, Trim;
    if doc.Some? && s.fits(lines[0]) {
      assert lines == [lines[0]] + lines[1..];
      UnfitLine(s, ReadLine(s, doc.value, lines[0]), lines[1..]);
    }
  }

  predicate OneLine(line: string) {
    '\n' !in line
  }

  lemma {:induction false} EntriesAreLines(s: Schema, section: string, es: seq<Entry>, q: Printable)
    requires ValidEntries(s, section, es)
    ensures forall line <- EntryLines(s, section, es, q) :: OneLine(line)
  {
    if es != [] {
      hide Render;
      NamesAreTrimmed(es[0].key);
      NoBreakInSetting(es[0].value, q);
      EntriesAreLines(s, section, es[1..], q);
    }
  }

  lemma {:induction false} DocumentIsLines(s: Schema, doc: seq<Table>, q: Printable)
    requires Valid(s, doc)
    ensures forall line <- DocumentLines(s, doc, q) :: OneLine(line)
  {
    if doc != [] {
      hide EntryLines, ValidEntries, Name;
      assert ValidTable(s, doc[0]);
      NamesAreTrimmed(doc[0].name);
      EntriesAreLines(s, doc[0].name, doc[0].entries, q);
      assert forall i | 0 <= i < |doc| - 1 :: doc[1..][i] == doc[i + 1];
      DocumentIsLines(s, doc[1..], q);
    }
  }

  /** What the parser makes of a rendered document. */
  lemma DocumentIsRead(s: Schema, doc: seq<Table>, q: Printable)
    requires Valid(s, doc)
    ensures Parsed(s, DocumentText(s, doc, q))
      == if AllFit(s, DocumentLines(s, doc, q)) then DocumentBack(s, doc, q) else None
  {
    var lines := DocumentLines(s, doc, q);
    hide DocumentLines, DocumentBack, ReadLine, ReadLines, Valid;
    DocumentIsLines(s, doc, q);
    Lines.SplitOfJoin(lines + [""], '\n');
    if AllFit(s, lines) {
      ReadDocument(s, [], doc, q);
      FitsEmpty(s, doc);
      ReadJoin(s, Some([]), lines, [""]);
      BlankLine(s, ReadLines(s, Some([]), lines));
      Joined([], Table("", false, []), None);
      if DocumentBack(s, doc, q).Some? {
        assert [] + DocumentBack(s, doc, q).value == DocumentBack(s, doc, q).value;
      }
    } else {
      var i :| 0 <= i < |lines| && !s.fits(lines[i]);
      assert !s.fits((lines + [""])[i]);
      UnfitLine(s, Some([]), lines + [""]);
    }
  }

  lemma FitsEmpty(s: Schema, doc: seq<Table>)
    requires Valid(s, doc)
    ensures s.fits("")
  {
  }

  // ------------------------------------------------------------ the round trip

  predicate EntriesKept(s: Schema, section: string, es: seq<Entry>)
    requires ValidEntries(s, section, es)
  {
    forall i | 0 <= i < |es| :: Kept(KindOf(s, section, es[i]), es[i].value, s.home)
  }

  predicate AllKept(s: Schema, doc: seq<Table>)
    requires Valid(s, doc)
  {
    forall i | 0 <= i < |doc| :: EntriesKept(s, doc[i].name, doc[i].entries)
  }

  lemma {:induction false} EntriesBackExactly(s: Schema, section: string, es: seq<Entry>, q: Printable)
    requires ValidEntries(s, section, es)
    ensures EntriesBack(s, section, es, q) == Some(es) <==> EntriesKept(s, section, es)
  {
    hide ReadBack, Kept, Name, Conforms;
    if es != [] {
      SettingKeptExactly(KindOf(s, section, es[0]), es[0].value, s.home, q);
      EntriesBackExactly(s, section, es[1..], q);
      assert es == [es[0]] + es[1..];
      assert forall i | 0 <= i < |es| - 1 :: es[1..][i] == es[i + 1];
    }
  }

  lemma {:induction false} DocumentBackExactly(s: Schema, doc: seq<Table>, q: Printable)
    requires Valid(s, doc)
    ensures DocumentBack(s, doc, q) == Some(doc) <==> AllKept(s, doc)
  {
    hide EntriesBack, EntriesKept, ValidEntries, Name;
    if doc != [] {
      assert ValidTable(s, doc[0]);
      EntriesBackExactly(s, doc[0].name, doc[0].entries, q);
      assert doc == [doc[0]] + doc[1..];
      assert forall i | 0 <= i < |doc| - 1 :: doc[1..][i] == doc[i + 1];
      DocumentBackExactly(s, doc[1..], q);
    }
  }

  /** A document comes back exactly when its lines fit and all of its settings
      are kept. */
  lemma DocumentRoundTripExactly(s: Schema, doc: seq<Table>, q: Printable)
    requires Valid(s, doc)
    ensures Parsed(s, DocumentText(s, doc, q)) == Some(doc)
      <==> AllFit(s, DocumentLines(s, doc, q)) && AllKept(s, doc)
  {
    hide DocumentLines, DocumentText, DocumentBack, Parsed, AllFit, AllKept, Valid;
    DocumentIsRead(s, doc, q);
    DocumentBackExactly(s, doc, q);
  }

  // --------------------------------------------------- one setting loses the rest

  lemma {:induction false} OneErrorIsAll(s: Schema, section: string, es: seq<Entry>, j: nat, q: Printable)
    requires ValidEntries(s, section, es) && j < |es|
    ensures ReadBack(KindOf(s, section, es[j]), es[j].value, s.home, q) == None ==>
              EntriesBack(s, section, es, q) == None
  {
    hide ReadBack, Name, Conforms;
    if j > 0 {
      assert es[1..][j - 1] == es[j];
      OneErrorIsAll(s, section, es[1..], j - 1, q);
    }
  }

  lemma {:induction false} OneTableIsAll(s: Schema, doc: seq<Table>, i: nat, q: Printable)
    requires Valid(s, doc) && i < |doc|
    ensures EntriesBack(s, doc[i].name, doc[i].entries, q) == None ==> DocumentBack(s, doc, q) == None
  {
    hide EntriesBack, ValidEntries, Name;
    if i > 0 {
      assert doc[1..][i - 1] == doc[i];
      assert forall k | 0 <= k < |doc| - 1 :: doc[1..][k] == doc[k + 1];
      OneTableIsAll(s, doc[1..], i - 1, q);
    }
  }

  /** One text with a space before a number sign, and nothing of the file can be
      read any more. */
  lemma SpacedSignLosesDocument(s: Schema, doc: seq<Table>, i: nat, j: nat, q: Printable)
    requires Valid(s, doc) && i < |doc| && j < |doc[i].entries|
    requires var e := doc[i].entries[j];
      s.kind(doc[i].name, e.key) in {Some(TextKind), Some(PathKind)} && e.value.Text? && Marked(e.value.text)
    ensures Parsed(s, DocumentText(s, doc, q)) == None
  {
    var e := doc[i].entries[j];
    hide Marked, Parsed, DocumentText, DocumentLines, AllFit, DocumentBack, EntriesBack, Unquoted, Uncommented, Name;
    assert ValidTable(s, doc[i]) && ValidEntry(s, doc[i].name, e);
    TextIsRead(e.value.text, q);
    OneErrorIsAll(s, doc[i].name, doc[i].entries, j, q);
    OneTableIsAll(s, doc, i, q);
    DocumentIsRead(s, doc, q);
  }

  // ----------------------------------------------------------- writing it out

  /** Every line with its line break. */
  function Broken(lines: seq<string>): string {
    if lines == [] then "" else lines[0] + "\n" + Broken(lines[1..])
  }

  lemma {:induction false} BrokenIsJoined(lines: seq<string>)
    ensures Broken(lines) == Lines.Join(lines + [""], '\n')
  {
    if lines == [] {
      assert lines + [""] == [""];
    } else {
      assert (lines + [""])[1..] == lines[1..] + [""];
      BrokenIsJoined(lines[1..]);
    }
  }

  lemma {:induction false} BrokenJoin(a: seq<string>, b: seq<string>)
    ensures Broken(a + b) == Broken(a) + Broken(b)
  {
    if a == [] {
      assert a + b == b;
    } else {
      assert (a + b)[1..] == a[1..] + b;
      BrokenJoin(a[1..], b);
    }
  }

  lemma {:induction false} EntryLinesJoin(s: Schema, section: string, a: seq<Entry>, b: seq<Entry>, q: Printable)
    ensures EntryLines(s, section, a + b, q) == EntryLines(s, section, a, q) + EntryLines(s, section, b, q)
  {
    if a == [] {
      assert a + b == b;
    } else {
      assert (a + b)[1..] == a[1..] + b;
      EntryLinesJoin(s, section, a[1..], b, q);
    }
  }

  lemma {:induction false} DocumentLinesJoin(s: Schema, a: seq<Table>, b: seq<Table>, q: Printable)
    ensures DocumentLines(s, a + b, q) == DocumentLines(s, a, q) + DocumentLines(s, b, q)
  {
    hide TableLines;
    if a == [] {
      assert a + b == b;
    } else {
      assert (a + b)[1..] == a[1..] + b;
      DocumentLinesJoin(s, a[1..], b, q);
    }
  }

  /** The text after one more entry. */
  lemma OneMoreEntry(s: Schema, t: Table, i: nat, q: Printable)
    requires i < |t.entries|
    ensures Broken(EntryLines(s, t.name, t.entries[..i + 1], q))
      == Broken(EntryLines(s, t.name, t.entries[..i], q)) + EntryLine(s, t.name, t.entries[i], q) + "\n"
  {
    var a, b := t.entries[..i], [t.entries[i]];
    hide EntryLine;
    assert t.entries[..i + 1] == a + b && b[1..] == [];
    EntryLinesJoin(s, t.name, a, b, q);
    var line := EntryLine(s, t.name, t.entries[i], q);
    assert EntryLines(s, t.name, b, q) == [line] && [line][1..] == [];
    BrokenJoin(EntryLines(s, t.name, a, q), [line]);
    assert Broken([line]) == line + "\n";
  }

  lemma BrokenTable(s: Schema, t: Table, q: Printable)
    ensures Broken(TableLines(s, t, q))
      == Header(t) + "\n" + Broken(EntryLines(s, t.name, t.entries, q)) + "\n"
  {
    hide EntryLines, Header;
    var header, es := [Header(t)], EntryLines(s, t.name, t.entries, q);
    BrokenJoin(header + es, [""]);
    BrokenJoin(header, es);
    assert header[1..] == [] && [""][1..] == [];
    assert Broken([""]) == "\n" && Broken(header) == Header(t) + "\n";
  }

  lemma OneMoreTable(s: Schema, doc: seq<Table>, i: nat, q: Printable)
    requires i < |doc|
    ensures Broken(DocumentLines(s, doc[..i + 1], q))
      == Broken(DocumentLines(s, doc[..i], q)) + Broken(TableLines(s, doc[i], q))
  {
    var a, b := doc[..i], [doc[i]];
    hide TableLines;
    assert doc[..i + 1] == a + b && b[1..] == [];
    DocumentLinesJoin(s, a, b, q);
    assert DocumentLines(s, b, q) == TableLines(s, doc[i], q);
    BrokenJoin(DocumentLines(s, a, q), TableLines(s, doc[i], q));
  }

  /** renderConfig, with a blank line after every table. */
  method RenderDocument(s: Schema, doc: seq<Table>, q: Printable) returns (text: string)
    ensures Valid(s, doc) ==>
      (Parsed(s, text) == Some(doc) <==> AllFit(s, DocumentLines(s, doc, q)) && AllKept(s, doc))
    ensures text == DocumentText(s, doc, q)
  {
    hide Valid, Parsed, AllFit, AllKept, DocumentLines, EntryLines, Render, Broken, KeyText;
    text := "";
    assert doc[..0] == [];
    NothingWritten(s, "", q);
    for i := 0 to |doc|
      invariant text == Broken(DocumentLines(s, doc[..i], q))
    {
      var t := doc[i];
      ghost var before := text;
      text := text + (if t.isArray then "[[" + t.name + "]]" else "[" + t.name + "]") + "\n";
      ghost var header := text;
      NothingWritten(s, t.name, q);
      assert t.entries[..0] == [];
      for j := 0 to |t.entries|
        invariant text == header + Broken(EntryLines(s, t.name, t.entries[..j], q))
      {
        var e := t.entries[j];
        var value := RenderSetting(e.value, q);
        text := text + KeyText(s, t.name, e.key) + " = " + value + "\n";
        OneMoreEntry(s, t, j, q);
      }
      assert t.entries[..|t.entries|] == t.entries;
      text := text + "\n";
      BrokenTable(s, t, q);
      OneMoreTable(s, doc, i, q);
    }
    assert doc[..|doc|] == doc;
    BrokenIsJoined(DocumentLines(s, doc, q));
    if Valid(s, doc) { DocumentRoundTripExactly(s, doc, q); }
  }

  lemma NothingWritten(s: Schema, section: string, q: Printable)
    ensures Broken(DocumentLines(s, [], q)) == "" && Broken(EntryLines(s, section, [], q)) == ""
  {
  }

  method RenderList(items: seq<string>, q: Printable) returns (text: string)
    ensures text == "[" + QuotedList(items, q) + "]"
  {
    hide Quote;
    text := "[";
    for i := 0 to |items|
      invariant text == "[" + QuotedList(items[..i], q)
    {
      if i > 0 { text := text + ", "; }
      text := text + Quote(items[i], q);
      OneMoreItem(items[..i], items[i], q);
      assert items[..i + 1] == items[..i] + [items[i]];
    }
    assert items[..|items|] == items;
    text := text + "]";
  }

  method RenderSetting(v: Setting, q: Printable) returns (text: string)
    ensures text == Render(v, q)
  {
    match v
    case Text(t) => text := Quote(t, q);
    case Number(n) => text := Written(n);
    case Truth(b) => text := if b then "true" else "false";
    case Texts(items) => text := RenderList(items, q);
    case Budget(bytes) =>
      var size := FormatBackupSize(bytes);
      text := Quote(size, q);
  }

  lemma {:induction false} OneMoreItem(items: seq<string>, item: string, q: Printable)
    ensures QuotedList(items + [item], q)
         == QuotedList(items, q) + (if items == [] then "" else ", ") + Quote(item, q)
  {
    hide Quote;
    if items == [] {
      assert items + [item] == [item];
    } else {
      assert (items + [item])[1..] == items[1..] + [item];
      OneMoreItem(items[1..], item, q);
    }
  }
}
