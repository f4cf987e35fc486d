/** operator/feature.go: the registry of workspace domains, its writer and the
    parser that reads it line by line. */
module WorkspaceRegistry {
  import opened Wrappers
  import opened Quoting
  import opened Texts
  import opened YamlScalar
  import Lines

  datatype Domain = Domain(path: string, kind: string, labelText: string, purpose: string, lifecycle: string,
    route: string, tags: seq<string>, template: string, inBriefing: bool, category: string, skills: seq<string>,
    feature: string)

  const EMPTY := Domain("", "", "", "", "", "", [], "", false, "", [], "")

  /** The fields that hold one text or truth value, and the two lists. */
  datatype Field = Path | Kind | LabelText | Purpose | Lifecycle | Route | Template | InBriefing | Category | Feature

  datatype List = Neither | Tags | Skills

  function KeyOf(f: Field): string {
    match f
    case Path => "path"
    case Kind => "kind"
    case LabelText => "label"
    case Purpose => "purpose"
    case Lifecycle => "lifecycle"
    case Route => "route"
    case Template => "template"
    case InBriefing => "include_in_briefing"
    case Category => "briefing_category"
    case Feature => "feature"
  }

  function ListKey(list: List): string {
    match list
    case Neither => ""
    case Tags => "tags"
    case Skills => "skills"
  }

  // ---------------------------------------------------------------- the writer

  function FieldLine(f: Field, v: string, q: Printable): string {
    "    " + (KeyOf(f) + ": " + Format(v, q))
  }

  function ItemLines(items: seq<string>, q: Printable): seq<string> {
    if items == [] then [] else ItemLines(items[..|items| - 1], q) + ["      " + ("- " + Format(items[|items| - 1], q))]
  }

  function OptionalLine(f: Field, v: string, q: Printable): seq<string> {
    if v == "" then [] else [FieldLine(f, v, q)]
  }

  function ListLines(list: List, items: seq<string>, q: Printable): seq<string> {
    if items == [] then [] else ["    " + (ListKey(list) + ":")] + ItemLines(items, q)
  }

  function PathLine(path: string, q: Printable): string {
    "  " + ("- " + ("path: " + Format(path, q)))
  }

  function RequiredLines(d: Domain, q: Printable): seq<string> {
    [PathLine(d.path, q)] + [FieldLine(Kind, d.kind, q)] + [FieldLine(LabelText, d.labelText, q)]
    + [FieldLine(Purpose, d.purpose, q)]
  }

  function LinesToTags(d: Domain, q: Printable): seq<string> {
    RequiredLines(d, q) + OptionalLine(Lifecycle, d.lifecycle, q) + OptionalLine(Route, d.route, q)
    + ListLines(Tags, d.tags, q)
  }

  function LinesToCategory(d: Domain, q: Printable): seq<string> {
    LinesToTags(d, q) + OptionalLine(Template, d.template, q)
    + OptionalLine(InBriefing, if d.inBriefing then "true" else "", q)
    + OptionalLine(Category, d.category, q)
  }

  function DomainLines(d: Domain, q: Printable): seq<string> {
    LinesToCategory(d, q) + ListLines(Skills, d.skills, q) + OptionalLine(Feature, d.feature, q)
  }

  /** writeDomainYAML, the builder as the list of its lines. */
  method WriteDomain(d: Domain, q: Printable) returns (b: seq<string>)
    ensures b == DomainLines(d, q)
  {
    b := [PathLine(d.path, q)] + [FieldLine(Kind, d.kind, q)] + [FieldLine(LabelText, d.labelText, q)]
      + [FieldLine(Purpose, d.purpose, q)];
    b := WriteOptional(b, Lifecycle, d.lifecycle, q);
    b := WriteOptional(b, Route, d.route, q);
    var list := WriteList(Tags, d.tags, q);
    b := b + list;
    b := WriteOptional(b, Template, d.template, q);
    b := WriteOptional(b, InBriefing, if d.inBriefing then "true" else "", q);
    b := WriteOptional(b, Category, d.category, q);
    list := WriteList(Skills, d.skills, q);
    b := b + list;
    b := WriteOptional(b, Feature, d.feature, q);
  }

  method WriteOptional(b: seq<string>, f: Field, v: string, q: Printable) returns (r: seq<string>)
    ensures r == b + OptionalLine(f, v, q)
  {
    if v != "" { return b + [FieldLine(f, v, q)]; }
    return b;
  }

  method WriteList(list: List, items: seq<string>, q: Printable) returns (b: seq<string>)
    ensures b == ListLines(list, items, q)
  {
    b := [];
    if |items| > 0 {
      b := ["    " + (ListKey(list) + ":")];
      for i := 0 to |items|
        invariant b == ["    " + (ListKey(list) + ":")] + ItemLines(items[..i], q)
      {
        assert items[..i + 1][..i] == items[..i];
        b := b + ["      " + ("- " + Format(items[i], q))];
      }
      assert items[..|items|] == items;
    }
  }

  // The two remarks, in pieces short enough for a proof to look at each character.
  const FIRST_REMARK := "# This registry is" + " user-owned. The agent" + " designs" + " semantic extensions; the user"
  const SECOND_REMARK := "# approves their" + " scoped purpose, path," + " lifecycle," + " and template/schema plan."

  const HEADER: seq<string> :=
    ["$schema: ./workspace.schema.json", "version: 1", "", FIRST_REMARK, SECOND_REMARK]

  function AllLines(ds: seq<Domain>, q: Printable): seq<string> {
    if ds == [] then [] else DomainLines(ds[0], q) + AllLines(ds[1..], q)
  }

  /** RenderWorkspaceRegistry: every line ends in a line feed. */
  function Render(ds: seq<Domain>, q: Printable): string {
    Lines.Join(HEADER + ["domains:"] + AllLines(ds, q) + [""], '\n')
  }

  // ---------------------------------------------------------------- the parser

  datatype State = State(done: seq<Domain>, inDomains: bool, current: Option<Domain>, list: List)

  const START := State([], false, None, Neither)

  /** parseInlineYAMLList */
  function InlineList(val: string): seq<string> {
    var v := Trim(val);
    if |v| < 2 || v[0] != '[' || v[|v| - 1] != ']' then []
    else
      var inner := Trim(v[1..|v| - 1]);
      if inner == "" then [] else NonEmpty(Lines.Split(inner, ','))
  }

  function NonEmpty(parts: seq<string>): seq<string> {
    if parts == [] then []
    else (if Unquote(parts[0]) != "" then [Unquote(parts[0])] else []) + NonEmpty(parts[1..])
  }

  function FieldOf(key: string): Option<Field> {
    if key == "path" then Some(Path)
    else if key == "kind" then Some(Kind)
    else if key == "label" then Some(LabelText)
    else if key == "purpose" then Some(Purpose)
    else if key == "lifecycle" then Some(Lifecycle)
    else if key == "route" then Some(Route)
    else if key == "template" then Some(Template)
    else if key == "include_in_briefing" then Some(InBriefing)
    else if key == "briefing_category" then Some(Category)
    else if key == "feature" then Some(Feature)
    else None
  }

  function SetText(d: Domain, f: Field, v: string): Domain {
    match f
    case Path => d.(path := v)
    case Kind => d.(kind := v)
    case LabelText => d.(labelText := v)
    case Purpose => d.(purpose := v)
    case Lifecycle => d.(lifecycle := v)
    case Route => d.(route := v)
    case Template => d.(template := v)
    case InBriefing => d.(inBriefing := v == "true")
    case Category => d.(category := v)
    case Feature => d.(feature := v)
  }

  function AddItems(d: Domain, list: List, items: seq<string>): Domain {
    match list
    case Neither => d
    case Tags => d.(tags := d.tags + items)
    case Skills => d.(skills := d.skills + items)
  }

  /** applyDomainField: the domain and the list that is open. */
  function Apply(d: Domain, key: string, val: string, list: List): (Domain, List) {
    var f := FieldOf(key);
    if f.Some? then (SetText(d, f.value, Unquote(val)), list)
    else if key == "tags" then
      if val == "" then (d, Tags) else (AddItems(d, Tags, InlineList(val)), list)
    else if key == "skills" then
      if val == "" then (d, Skills) else (AddItems(d, Skills, InlineList(val)), list)
    else (d, list)
  }

  function AddItem(d: Domain, list: List, item: string): Domain {
    if item == "" then d else AddItems(d, list, [item])
  }

  /** flush: a domain without a path is not taken, and stays open. */
  function Flush(st: State): State {
    if st.current.Some? && st.current.value.path != "" then
      st.(done := st.done + [st.current.value], current := None, list := Neither)
    else st.(list := Neither)
  }

  predicate Item(trimmed: string) {
    "- " <= trimmed
  }

  function OpenDomain(st: State, rest: string): State {
    var pair := SplitKeyValue(rest);
    var first := if pair.ok then Apply(EMPTY, pair.key, pair.value, Neither) else (EMPTY, Neither);
    Flush(st).(current := Some(first.0), list := first.1)
  }

  function TakeField(st: State, trimmed: string): State
    requires st.current.Some?
  {
    var pair := SplitKeyValue(trimmed);
    var next := if pair.ok then Apply(st.current.value, pair.key, pair.value, Neither) else (st.current.value, Neither);
    st.(current := Some(next.0), list := next.1)
  }

  function TakeItem(st: State, trimmed: string): State
    requires st.current.Some? && Item(trimmed)
  {
    st.(current := Some(AddItem(st.current.value, st.list, Unquote(Trim(trimmed[2..])))))
  }

  /** What the parser does with one line. */
  function Read(st: State, raw: string): State {
    var trimmed := Trim(raw);
    if trimmed == "" || "#" <= trimmed then st
    else if Indent(raw) == 0 then
      var pair := SplitKeyValue(trimmed);
      Flush(st).(inDomains := pair.ok && pair.key == "domains")
    else if !st.inDomains then st
    else if Indent(raw) == 2 && Item(trimmed) then OpenDomain(st, Trim(trimmed[2..]))
    else if st.current.Some? && Indent(raw) == 4 && !Item(trimmed) then TakeField(st, trimmed)
    else if st.current.Some? && Indent(raw) >= 4 && Item(trimmed) then TakeItem(st, trimmed)
    else st
  }

  function ReadAll(st: State, lines: seq<string>): State
    decreases |lines|
  {
    if lines == [] then st else ReadAll(Read(st, lines[0]), lines[1..])
  }

  function Parsed(text: string): seq<Domain> {
    Flush(ReadAll(START, Lines.Split(Lines.UnixText(text), '\n'))).done
  }

  /** A line without content, or with nothing but a comment, may stand anywhere. */
  lemma NotesAreSkipped(st: State, a: seq<string>, note: string, b: seq<string>)
    requires IsNote(note)
    ensures ReadAll(st, a + [note] + b) == ReadAll(st, a + b)
  {
    NoteExactly(note);
    ReadAppends(st, a + [note], b);
    ReadAppends(st, a, [note]);
    ReadOne(ReadAll(st, a), note);
    ReadAppends(st, a, b);
  }

  /** An item that an inline list gives back. */
  predicate InlineItem(v: string) {
    v != "" && BareKept(v) && ',' !in v
  }

  /** The items of a list written on one line, between brackets. */
  lemma InlineListIsRead(items: seq<string>)
    requires forall item <- items :: InlineItem(item)
    ensures InlineList("[" + Commas(items) + "]") == items
  {
    var inner := Commas(items);
    var v := "[" + inner + "]";
    TrimLeavesTrimmed(v);
    assert Trim(v) == v && v[1..|v| - 1] == inner;
    if items == [] {
      assert Trim("") == "";
    } else {
      CommasTrimmed(items);
      TrimLeavesTrimmed(inner);
      SplitCommas(items);
    }
  }

  function Commas(items: seq<string>): string {
    if items == [] then "" else if |items| == 1 then items[0] else items[0] + ", " + Commas(items[1..])
  }

  lemma {:induction false} CommasTrimmed(items: seq<string>)
    requires items != [] && forall item <- items :: InlineItem(item)
    ensures var s := Commas(items);
      s != "" && !Space(s[|s| - 1]) && !Space(s[0])
  {
    assert items[0] in items;
    if |items| > 1 { CommasTrimmed(items[1..]); }
  }

  lemma InlineItemIsRead(v: string)
    requires InlineItem(v)
    ensures Unquote(v) == v && Unquote(" " + v) == v
  {
    TrimLeavesTrimmed(v);
    TrimOfPadded(" ", v);
  }

  lemma SplitOne(item: string)
    requires InlineItem(item)
    ensures NonEmpty(Lines.Split(item, ',')) == NonEmpty(Lines.Split(" " + item, ',')) == [item]
  {
    InlineItemIsRead(item);
    hide Unquote, BareKept, Lines.Split;
    Lines.SplitOfLine(item, ',');
    Lines.SplitOfLine(" " + item, ',');
  }

  /** One item, with or without a blank before it, and what comes after. */
  lemma SplitNext(item: string, rest: string)
    requires InlineItem(item)
    ensures NonEmpty(Lines.Split(item + ", " + rest, ',')) == [item] + NonEmpty(Lines.Split(" " + rest, ','))
    ensures NonEmpty(Lines.Split(" " + (item + ", " + rest), ',')) == [item] + NonEmpty(Lines.Split(" " + rest, ','))
  {
    InlineItemIsRead(item);
    hide Unquote, BareKept, Lines.Split;
    Lines.SplitOfFirst(item, " " + rest, ',');
    Lines.SplitOfFirst(" " + item, " " + rest, ',');
    assert item + ", " + rest == item + [','] + (" " + rest);
    assert " " + (item + ", " + rest) == " " + item + [','] + (" " + rest);
    var others := Lines.Split(" " + rest, ',');
    assert ([item] + others)[1..] == others && ([" " + item] + others)[1..] == others;
  }

  lemma {:induction false} SplitCommas(items: seq<string>)
    requires items != [] && forall item <- items :: InlineItem(item)
    ensures NonEmpty(Lines.Split(Commas(items), ',')) == items
    ensures NonEmpty(Lines.Split(" " + Commas(items), ',')) == items
  {
    var first := items[0];
    assert first in items;
    SplitOne(first);
    hide NonEmpty, Lines.Split, InlineItem;
    if |items| == 1 {
      assert items == [first];
    } else {
      SplitCommas(items[1..]);
      SplitNext(first, Commas(items[1..]));
      assert items == [first] + items[1..];
    }
  }

  /** ParseWorkspaceDomains */
  method ParseWorkspaceDomains(data: string) returns (result: seq<Domain>)
    ensures result == Parsed(data)
  {
    var lines := Lines.Split(Lines.UnixText(data), '\n');
    result := [];
    var inDomains, current, list := false, None, Neither;
    for i := 0 to |lines|
      invariant ReadAll(START, lines) == ReadAll(State(result, inDomains, current, list), lines[i..])
    {
      var raw, trimmed := lines[i], Trim(lines[i]);
      assert lines[i..][1..] == lines[i + 1..];
      ghost var st := State(result, inDomains, current, list);
      if trimmed == "" || "#" <= trimmed { continue; }
      if Indent(raw) == 0 {
        result, current, list := Flushed(result, current);
        var pair := SplitKeyValue(trimmed);
        inDomains := pair.ok && pair.key == "domains";
        assert Read(st, raw) == State(result, inDomains, current, list);
        continue;
      }
      if !inDomains { continue; }
      if Indent(raw) == 2 && Item(trimmed) {
        result, current, list := Flushed(result, current);
        var first := EMPTY;
        var pair := SplitKeyValue(Trim(trimmed[2..]));
        if pair.ok {
          var applied := Apply(first, pair.key, pair.value, list);
          first, list := applied.0, applied.1;
        }
        current := Some(first);
      } else if current.Some? && Indent(raw) == 4 && !Item(trimmed) {
        list := Neither;
        var pair := SplitKeyValue(trimmed);
        if pair.ok {
          var applied := Apply(current.value, pair.key, pair.value, list);
          current, list := Some(applied.0), applied.1;
        }
      } else if current.Some? && Indent(raw) >= 4 && Item(trimmed) {
        var item := Unquote(Trim(trimmed[2..]));
        current := Some(AddItem(current.value, list, item));
      }
      assert Read(st, raw) == State(result, inDomains, current, list);
    }
    result, current, list := Flushed(result, current);
  }

  method Flushed(done: seq<Domain>, current: Option<Domain>) returns (r: seq<Domain>, c: Option<Domain>, list: List)
    ensures forall b, l :: Flush(State(done, b, current, l)) == State(r, b, c, list)
  {
    r, c, list := done, current, Neither;
    if current.Some? && current.value.path != "" {
      r, c := done + [current.value], None;
    }
  }

  // ------------------------------------------------------- reading one line

  /** A scalar that fits on its line and comes back. */
  predicate Clean(v: string, q: Printable) {
    FieldKept(v, q) && '\n' !in v
  }

  predicate CleanItem(v: string, q: Printable) {
    v != "" && ItemKept(v, q) && '\n' !in v
  }

  /** The parser is inside a domain; which list is open does not matter. */
  predicate At(st: State, done: seq<Domain>, d: Domain) {
    st.inDomains && st.done == done && st.current == Some(d)
  }

  lemma LineShape(pad: string, t: string)
    requires (forall i | 0 <= i < |pad| :: pad[i] == ' ') && t != "" && Trimmed(t)
    ensures Trim(pad + t) == t && Indent(pad + t) == |pad|
  {
    TrimOfPadded(pad, t);
    IndentOfPadded(pad, t);
  }

  lemma KeysAreKeys(f: Field)
    ensures Key(KeyOf(f)) && FieldOf(KeyOf(f)) == Some(f)
  {
  }

  lemma ListKeys(list: List)
    requires list != Neither
    ensures Key(ListKey(list)) && Apply(EMPTY, ListKey(list), "", Neither).1 == list
    ensures forall d :: Apply(d, ListKey(list), "", Neither) == (d, list)
  {
  }

  /** What follows a key is taken back. */
  lemma TakeText(st: State, f: Field, v: string, q: Printable)
    requires st.current.Some? && FieldKept(v, q)
    ensures TakeField(st, KeyOf(f) + ": " + Format(v, q))
         == st.(current := Some(SetText(st.current.value, f, v)), list := Neither)
  {
    KeysAreKeys(f);
    FormatShape(v, q);
    SplitOfKeyed(KeyOf(f), Format(v, q));
    FieldKeptExactly(v, q);
    TrimLeavesTrimmed(Format(v, q));
  }

  lemma KeyedLine(key: string, f: string)
    requires Key(key) && f != "" && Trimmed(f)
    ensures var t := key + ": " + f; Trimmed(t) && t != "" && !("#" <= t) && !Item(t)
  {
    KeyedIsTrimmed(key, f);
  }

  lemma ReadField(st: State, done: seq<Domain>, d: Domain, f: Field, v: string, q: Printable)
    requires At(st, done, d) && FieldKept(v, q)
    ensures At(Read(st, FieldLine(f, v, q)), done, SetText(d, f, v))
  {
    KeysAreKeys(f);
    FormatShape(v, q);
    KeyedLine(KeyOf(f), Format(v, q));
    KeyedIsTrimmed(KeyOf(f), Format(v, q));
    LineShape("    ", KeyOf(f) + ": " + Format(v, q));
    TakeText(st, f, v, q);
  }

  lemma HeaderLine(key: string)
    requires Key(key)
    ensures var t := key + ":"; Trimmed(t) && t != "" && !("#" <= t) && !Item(t)
  {
    SplitOfHeader(key);
    assert (key + ":")[0] == key[0];
  }

  lemma ReadHeader(st: State, done: seq<Domain>, d: Domain, list: List)
    requires At(st, done, d) && list != Neither
    ensures var next := Read(st, "    " + (ListKey(list) + ":")); At(next, done, d) && next.list == list
  {
    ListKeys(list);
    HeaderLine(ListKey(list));
    LineShape("    ", ListKey(list) + ":");
    SplitOfHeader(ListKey(list));
  }

  lemma ReadItem(st: State, done: seq<Domain>, d: Domain, v: string, q: Printable)
    requires At(st, done, d) && CleanItem(v, q)
    ensures var next := Read(st, "      " + ("- " + Format(v, q)));
      At(next, done, AddItem(d, st.list, v)) && next.list == st.list
  {
    var t := "- " + Format(v, q);
    FormatShape(v, q);
    LineShape("      ", t);
    ItemKeptExactly(v, q);
    TrimLeavesTrimmed(Format(v, q));
    assert t[2..] == Format(v, q);
  }

  lemma OpenPath(st: State, path: string, q: Printable)
    requires FieldKept(path, q)
    ensures OpenDomain(st, "path: " + Format(path, q)) == Flush(st).(current := Some(EMPTY.(path := path)),
      list := Neither)
  {
    FormatShape(path, q);
    assert "path: " + Format(path, q) == "path" + ": " + Format(path, q);
    SplitOfKeyed("path", Format(path, q));
    KeyedIsTrimmed("path", Format(path, q));
    FieldKeptExactly(path, q);
    TrimLeavesTrimmed(Format(path, q));
    KeysAreKeys(Path);
  }

  lemma ReadOpens(st: State, rest: string)
    requires st.inDomains && rest != "" && Trimmed(rest)
    ensures Read(st, "  " + ("- " + rest)) == OpenDomain(st, rest)
  {
    var t := "- " + rest;
    LineShape("  ", t);
    assert t[2..] == rest;
    TrimLeavesTrimmed(rest);
  }

  lemma ReadPath(st: State, path: string, q: Printable)
    requires st.inDomains && FieldKept(path, q)
    ensures At(Read(st, PathLine(path, q)), Flush(st).done, EMPTY.(path := path))
  {
    FormatShape(path, q);
    assert "path: " + Format(path, q) == "path" + ": " + Format(path, q);
    KeyedIsTrimmed("path", Format(path, q));
    ReadOpens(st, "path: " + Format(path, q));
    OpenPath(st, path, q);
  }

  // -------------------------------------------------------- reading a domain

  lemma {:induction false} ReadAppends(st: State, a: seq<string>, b: seq<string>)
    ensures ReadAll(st, a + b) == ReadAll(ReadAll(st, a), b)
    decreases |a|
  {
    if a == [] {
      assert a + b == b;
    } else {
      assert (a + b)[1..] == a[1..] + b;
      ReadAppends(Read(st, a[0]), a[1..], b);
    }
  }

  function TextOf(d: Domain, f: Field): string {
    match f
    case Path => d.path
    case Kind => d.kind
    case LabelText => d.labelText
    case Purpose => d.purpose
    case Lifecycle => d.lifecycle
    case Route => d.route
    case Template => d.template
    case InBriefing => if d.inBriefing then "true" else ""
    case Category => d.category
    case Feature => d.feature
  }

  /** A line that is left out leaves an empty field as it is. */
  lemma ReadOptional(st: State, done: seq<Domain>, d: Domain, f: Field, v: string, q: Printable)
    requires At(st, done, d) && FieldKept(v, q) && TextOf(d, f) == ""
    ensures At(ReadAll(st, OptionalLine(f, v, q)), done, SetText(d, f, v))
  {
    if v != "" { ReadField(st, done, d, f, v, q); }
  }

  lemma AddItemsNext(d: Domain, list: List, items: seq<string>, item: string)
    requires item != ""
    ensures AddItem(AddItems(d, list, items), list, item) == AddItems(d, list, items + [item])
  {
    assert d.tags + (items + [item]) == d.tags + items + [item];
    assert d.skills + (items + [item]) == d.skills + items + [item];
  }

  lemma {:induction false} ReadItems(st: State, done: seq<Domain>, d: Domain, items: seq<string>, q: Printable)
    requires At(st, done, d) && forall i | 0 <= i < |items| :: CleanItem(items[i], q)
    ensures var next := ReadAll(st, ItemLines(items, q));
      At(next, done, AddItems(d, st.list, items)) && next.list == st.list
    decreases |items|
  {
    hide Read, ItemKept, Format;
    if items == [] {
      assert d.tags + items == d.tags && d.skills + items == d.skills;
    } else {
      var n := |items| - 1;
      ReadItems(st, done, d, items[..n], q);
      ReadAppends(st, ItemLines(items[..n], q), ["      " + ("- " + Format(items[n], q))]);
      var middle := ReadAll(st, ItemLines(items[..n], q));
      ReadItem(middle, done, AddItems(d, st.list, items[..n]), items[n], q);
      AddItemsNext(d, st.list, items[..n], items[n]);
      assert items == items[..n] + [items[n]];
    }
  }

  lemma ReadList(st: State, done: seq<Domain>, d: Domain, list: List, items: seq<string>, q: Printable)
    requires At(st, done, d) && list != Neither
    requires forall i | 0 <= i < |items| :: CleanItem(items[i], q)
    ensures At(ReadAll(st, ListLines(list, items, q)), done, AddItems(d, list, items))
  {
    if items == [] {
      assert d.tags + items == d.tags && d.skills + items == d.skills;
    } else {
      ReadHeader(st, done, d, list);
      ReadItems(Read(st, "    " + (ListKey(list) + ":")), done, d, items, q);
    }
  }

  /** A domain whose registration comes back. */
  predicate CleanDomain(d: Domain, q: Printable) {
    && d.path != "" && Clean(d.path, q) && Clean(d.kind, q) && Clean(d.labelText, q) && Clean(d.purpose, q)
    && Clean(d.lifecycle, q) && Clean(d.route, q) && Clean(d.template, q) && Clean(d.category, q) && Clean(d.feature, q)
    && (forall i | 0 <= i < |d.tags| :: CleanItem(d.tags[i], q))
    && (forall i | 0 <= i < |d.skills| :: CleanItem(d.skills[i], q))
  }

  lemma TrueIsKept(q: Printable)
    ensures FieldKept("true", q) && FieldKept("", q)
  {
    NoCommentWithoutMark("true", 0, false, false);
  }

  // One part after another: `a` is what was read before.

  lemma ThenField(st: State, a: seq<string>, done: seq<Domain>, d: Domain, f: Field, v: string, q: Printable)
    requires At(ReadAll(st, a), done, d) && FieldKept(v, q)
    ensures At(ReadAll(st, a + [FieldLine(f, v, q)]), done, SetText(d, f, v))
  {
    ReadAppends(st, a, [FieldLine(f, v, q)]);
    ReadField(ReadAll(st, a), done, d, f, v, q);
  }

  lemma ThenOptional(st: State, a: seq<string>, done: seq<Domain>, d: Domain, f: Field, v: string, q: Printable)
    requires At(ReadAll(st, a), done, d) && FieldKept(v, q) && TextOf(d, f) == ""
    ensures At(ReadAll(st, a + OptionalLine(f, v, q)), done, SetText(d, f, v))
  {
    ReadAppends(st, a, OptionalLine(f, v, q));
    ReadOptional(ReadAll(st, a), done, d, f, v, q);
  }

  lemma ThenList(st: State, a: seq<string>, done: seq<Domain>, d: Domain, list: List, items: seq<string>, q: Printable)
    requires At(ReadAll(st, a), done, d) && list != Neither
    requires forall i | 0 <= i < |items| :: CleanItem(items[i], q)
    ensures At(ReadAll(st, a + ListLines(list, items, q)), done, AddItems(d, list, items))
  {
    ReadAppends(st, a, ListLines(list, items, q));
    ReadList(ReadAll(st, a), done, d, list, items, q);
  }

  /** The domain as far as its first lines tell. */
  function Required(d: Domain): Domain {
    EMPTY.(path := d.path, kind := d.kind, labelText := d.labelText, purpose := d.purpose)
  }

  function ToTags(d: Domain): Domain {
    Required(d).(lifecycle := d.lifecycle, route := d.route, tags := d.tags)
  }

  function ToCategory(d: Domain): Domain {
    ToTags(d).(template := d.template, inBriefing := d.inBriefing, category := d.category)
  }

  lemma {:induction false} ReadOne(st: State, line: string)
    ensures ReadAll(st, [line]) == Read(st, line)
  {
  }

  lemma ReadRequired(st: State, d: Domain, q: Printable)
    requires st.inDomains && CleanDomain(d, q)
    ensures At(ReadAll(st, RequiredLines(d, q)), Flush(st).done, Required(d))
  {
    hide FieldKept, ItemKept, ReadAll, Read, OptionalLine, ListLines, FieldLine, Flush;
    var done := Flush(st).done;
    var a, c := [PathLine(d.path, q)], EMPTY.(path := d.path);
    ReadPath(st, d.path, q);
    ReadOne(st, PathLine(d.path, q));
    ThenField(st, a, done, c, Kind, d.kind, q);
    a, c := a + [FieldLine(Kind, d.kind, q)], c.(kind := d.kind);
    ThenField(st, a, done, c, LabelText, d.labelText, q);
    a, c := a + [FieldLine(LabelText, d.labelText, q)], c.(labelText := d.labelText);
    ThenField(st, a, done, c, Purpose, d.purpose, q);
  }

  lemma ReadToTags(st: State, d: Domain, q: Printable)
    requires st.inDomains && CleanDomain(d, q)
    ensures At(ReadAll(st, LinesToTags(d, q)), Flush(st).done, ToTags(d))
  {
    hide FieldKept, ItemKept, ReadAll, Read, OptionalLine, ListLines, FieldLine, Flush;
    var done := Flush(st).done;
    var a, c := RequiredLines(d, q), Required(d);
    ReadRequired(st, d, q);
    ThenOptional(st, a, done, c, Lifecycle, d.lifecycle, q);
    a, c := a + OptionalLine(Lifecycle, d.lifecycle, q), c.(lifecycle := d.lifecycle);
    ThenOptional(st, a, done, c, Route, d.route, q);
    a, c := a + OptionalLine(Route, d.route, q), c.(route := d.route);
    ThenList(st, a, done, c, Tags, d.tags, q);
    assert [] + d.tags == d.tags;
  }

  lemma ReadToCategory(st: State, d: Domain, q: Printable)
    requires st.inDomains && CleanDomain(d, q)
    ensures At(ReadAll(st, LinesToCategory(d, q)), Flush(st).done, ToCategory(d))
  {
    hide FieldKept, ItemKept, ReadAll, Read, OptionalLine, ListLines, FieldLine, Flush;
    var done := Flush(st).done;
    var a, c := LinesToTags(d, q), ToTags(d);
    var flag := if d.inBriefing then "true" else "";
    ReadToTags(st, d, q);
    TrueIsKept(q);
    ThenOptional(st, a, done, c, Template, d.template, q);
    a, c := a + OptionalLine(Template, d.template, q), c.(template := d.template);
    ThenOptional(st, a, done, c, InBriefing, flag, q);
    a, c := a + OptionalLine(InBriefing, flag, q), c.(inBriefing := d.inBriefing);
    ThenOptional(st, a, done, c, Category, d.category, q);
  }

  /** The lines of a domain are read as that domain. */
  lemma ReadDomain(st: State, d: Domain, q: Printable)
    requires st.inDomains && CleanDomain(d, q)
    ensures At(ReadAll(st, DomainLines(d, q)), Flush(st).done, d)
  {
    hide FieldKept, ItemKept, ReadAll, Read, OptionalLine, ListLines, FieldLine, Flush;
    var done := Flush(st).done;
    var a, c := LinesToCategory(d, q), ToCategory(d);
    ReadToCategory(st, d, q);
    ThenList(st, a, done, c, Skills, d.skills, q);
    a, c := a + ListLines(Skills, d.skills, q), c.(skills := d.skills);
    assert [] + d.skills == d.skills;
    ThenOptional(st, a, done, c, Feature, d.feature, q);
  }

  // ------------------------------------------------------ reading a registry

  predicate CleanRegistry(ds: seq<Domain>, q: Printable) {
    forall i | 0 <= i < |ds| :: CleanDomain(ds[i], q)
  }

  lemma {:induction false} ReadDomains(st: State, ds: seq<Domain>, q: Printable)
    requires st.inDomains && CleanRegistry(ds, q)
    ensures Flush(ReadAll(st, AllLines(ds, q))).done == Flush(st).done + ds
    decreases |ds|
  {
    hide FieldKept, ItemKept, Read, DomainLines;
    if ds != [] {
      var next := ReadAll(st, DomainLines(ds[0], q));
      ReadAppends(st, DomainLines(ds[0], q), AllLines(ds[1..], q));
      ReadDomain(st, ds[0], q);
      ReadDomains(next, ds[1..], q);
      assert ds == [ds[0]] + ds[1..];
    }
  }

  /** Lines before the domains leave no trace. */
  lemma ReadPreamble(b: bool, line: string)
    requires line == "" || line[0] != ' '
    ensures exists c :: Read(State([], b, None, Neither), line) == State([], c, None, Neither)
  {
    var st := State([], b, None, Neither);
    var next := Read(st, line);
    assert next == State([], next.inDomains, None, Neither);
  }

  lemma {:induction false} ReadPreambles(b: bool, lines: seq<string>)
    requires forall i | 0 <= i < |lines| :: lines[i] == "" || lines[i][0] != ' '
    ensures exists c :: ReadAll(State([], b, None, Neither), lines) == State([], c, None, Neither)
    decreases |lines|
  {
    if lines == [] {
      assert ReadAll(State([], b, None, Neither), lines) == State([], b, None, Neither);
    } else {
      ReadPreamble(b, lines[0]);
      var c :| Read(State([], b, None, Neither), lines[0]) == State([], c, None, Neither);
      ReadPreambles(c, lines[1..]);
    }
  }

  lemma ReadTitle(b: bool)
    ensures Read(State([], b, None, Neither), "domains:") == State([], true, None, Neither)
  {
    hide Trim, Indent, SplitKeyValue;
    assert "domains:" == "domains" + ":" == "" + ("domains" + ":");
    SplitOfHeader("domains");
    LineShape("", "domains:");
  }

  lemma ReadHeaderLines()
    ensures ReadAll(START, HEADER + ["domains:"]) == State([], true, None, Neither)
  {
    assert HEADER[0][0] == '$' && HEADER[1][0] == 'v' && HEADER[2] == "" && HEADER[3][0] == '#' && HEADER[4][0] == '#';
    ReadPreambles(false, HEADER);
    var c :| ReadAll(START, HEADER) == State([], c, None, Neither);
    ReadAppends(START, HEADER, ["domains:"]);
    ReadOne(ReadAll(START, HEADER), "domains:");
    ReadTitle(c);
  }

  /** The lines of a registry are read as its domains. */
  lemma ReadRegistry(ds: seq<Domain>, q: Printable)
    requires CleanRegistry(ds, q)
    ensures Flush(ReadAll(START, HEADER + ["domains:"] + AllLines(ds, q) + [""])).done == ds
  {
    var st := State([], true, None, Neither);
    var head := HEADER + ["domains:"];
    ReadHeaderLines();
    ReadAppends(START, head, AllLines(ds, q));
    ReadAppends(START, head + AllLines(ds, q), [""]);
    ReadOne(ReadAll(START, head + AllLines(ds, q)), "");
    ReadDomains(st, ds, q);
    assert Flush(st).done + ds == ds;
  }

  // -------------------------------------------------------------- line ends

  /** A line that neither holds nor completes a line end. */
  predicate Steady(line: string) {
    '\n' !in line && (line != "" ==> line[|line| - 1] != '\r')
  }

  lemma {:induction false} UnixOfLine(line: string, rest: string)
    requires Steady(line)
    ensures Lines.UnixText(line + ['\n'] + rest) == line + ['\n'] + Lines.UnixText(rest)
    decreases |line|
  {
    var s := line + ['\n'] + rest;
    if line == "" {
      assert s[1..] == rest;
    } else {
      assert s[1..] == line[1..] + ['\n'] + rest;
      assert Steady(line[1..]);
      UnixOfLine(line[1..], rest);
      assert s[1] == if |line| > 1 then line[1] else '\n';
    }
  }

  lemma {:induction false} UnixOfLast(line: string)
    requires Steady(line)
    ensures Lines.UnixText(line) == line
    decreases |line|
  {
    if line != "" {
      assert Steady(line[1..]);
      UnixOfLast(line[1..]);
    }
  }

  lemma {:induction false} UnixOfJoin(lines: seq<string>)
    requires forall i | 0 <= i < |lines| :: Steady(lines[i])
    ensures Lines.UnixText(Lines.Join(lines, '\n')) == Lines.Join(lines, '\n')
    decreases |lines|
  {
    if |lines| == 1 {
      UnixOfLast(lines[0]);
    } else if |lines| > 1 {
      UnixOfJoin(lines[1..]);
      UnixOfLine(lines[0], Lines.Join(lines[1..], '\n'));
    }
  }

  lemma {:induction false} SteadyJoin(a: string, b: string)
    requires '\n' !in a && Steady(b) && b != ""
    ensures Steady(a + b)
  {
  }

  lemma FieldLineIsSteady(f: Field, v: string, q: Printable)
    requires Clean(v, q)
    ensures Steady(FieldLine(f, v, q))
  {
    FormatShape(v, q);
    SteadyJoin(KeyOf(f) + ": ", Format(v, q));
    SteadyJoin("    ", KeyOf(f) + ": " + Format(v, q));
  }

  lemma OptionalIsSteady(f: Field, v: string, q: Printable)
    requires Clean(v, q)
    ensures AllSteady(OptionalLine(f, v, q))
  {
    FieldLineIsSteady(f, v, q);
  }

  predicate AllSteady(lines: seq<string>) {
    forall i | 0 <= i < |lines| :: Steady(lines[i])
  }

  lemma ItemIsSteady(v: string, q: Printable)
    requires CleanItem(v, q)
    ensures Steady("      " + ("- " + Format(v, q)))
  {
    FormatShape(v, q);
    SteadyJoin("- ", Format(v, q));
    SteadyJoin("      ", "- " + Format(v, q));
  }

  lemma {:induction false} ItemsAreSteady(items: seq<string>, q: Printable)
    requires forall i | 0 <= i < |items| :: CleanItem(items[i], q)
    ensures AllSteady(ItemLines(items, q))
    decreases |items|
  {
    hide CleanItem, Steady;
    if items != [] {
      ItemsAreSteady(items[..|items| - 1], q);
      ItemIsSteady(items[|items| - 1], q);
    }
  }

  lemma ListIsSteady(list: List, items: seq<string>, q: Printable)
    requires forall i | 0 <= i < |items| :: CleanItem(items[i], q)
    ensures AllSteady(ListLines(list, items, q))
  {
    hide ItemKept, ItemLines;
    ItemsAreSteady(items, q);
    assert Steady("    " + (ListKey(list) + ":"));
  }

  lemma DomainIsSteady(d: Domain, q: Printable)
    requires CleanDomain(d, q)
    ensures AllSteady(DomainLines(d, q))
  {
    hide FieldKept, ItemKept, Steady, FieldLine, OptionalLine, ListLines;
    TrueIsKept(q);
    PathIsSteady(d.path, q);
    FieldLineIsSteady(Kind, d.kind, q);
    FieldLineIsSteady(LabelText, d.labelText, q);
    FieldLineIsSteady(Purpose, d.purpose, q);
    OptionalIsSteady(Lifecycle, d.lifecycle, q);
    OptionalIsSteady(Route, d.route, q);
    ListIsSteady(Tags, d.tags, q);
    OptionalIsSteady(Template, d.template, q);
    OptionalIsSteady(InBriefing, if d.inBriefing then "true" else "", q);
    OptionalIsSteady(Category, d.category, q);
    ListIsSteady(Skills, d.skills, q);
    OptionalIsSteady(Feature, d.feature, q);
  }

  lemma PathIsSteady(path: string, q: Printable)
    requires Clean(path, q)
    ensures Steady(PathLine(path, q))
  {
    FormatShape(path, q);
  }

  lemma {:induction false} RegistryIsSteady(ds: seq<Domain>, q: Printable)
    requires CleanRegistry(ds, q)
    ensures AllSteady(AllLines(ds, q))
    decreases |ds|
  {
    if ds != [] {
      DomainIsSteady(ds[0], q);
      RegistryIsSteady(ds[1..], q);
    }
  }

  lemma FirstRemarkIsSteady()
    ensures Steady(FIRST_REMARK)
  {
    SteadyJoin("# This registry is" + " user-owned. The agent" + " designs", " semantic extensions; the user");
  }

  lemma SecondRemarkIsSteady()
    ensures Steady(SECOND_REMARK)
  {
    SteadyJoin("# approves their" + " scoped purpose, path," + " lifecycle,", " and template/schema plan.");
  }

  lemma HeaderIsSteady()
    ensures AllSteady(HEADER + ["domains:"])
  {
    FirstRemarkIsSteady();
    SecondRemarkIsSteady();
    assert Steady(HEADER[0]) && Steady(HEADER[1]) && Steady(HEADER[2]);
    assert Steady("domains:");
  }

  /** A registry that was rendered is parsed as the same domains. */
  lemma RegistryRoundTrip(ds: seq<Domain>, q: Printable)
    requires CleanRegistry(ds, q)
    ensures Parsed(Render(ds, q)) == ds
  {
    hide CleanRegistry, AllLines, Lines.UnixText, ReadAll, Flush;
    var lines := HEADER + ["domains:"] + AllLines(ds, q) + [""];
    RegistryIsSteady(ds, q);
    HeaderIsSteady();
    assert AllSteady(lines);
    UnixOfJoin(lines);
    Lines.SplitOfJoin(lines, '\n');
    ReadRegistry(ds, q);
  }

  // -------------------------------------------------------------- the method

  /** RenderWorkspaceRegistry: what it renders is parsed as the same domains. */
  method RenderWorkspaceRegistry(ds: seq<Domain>, q: Printable) returns (text: string)
    ensures text == Render(ds, q)
    ensures CleanRegistry(ds, q) ==> Parsed(text) == ds
  {
    hide DomainLines, CleanDomain, Parsed;
    var b: seq<string> := [];
    for i := 0 to |ds|
      invariant AllLines(ds, q) == b + AllLines(ds[i..], q)
    {
      assert ds[i..][0] == ds[i] && ds[i..][1..] == ds[i + 1..];
      var lines := WriteDomain(ds[i], q);
      b := b + lines;
    }
    assert AllLines(ds, q) == b;
    text := Lines.Join(HEADER + ["domains:"] + b + [""], '\n');
    if CleanRegistry(ds, q) { RegistryRoundTrip(ds, q); }
  }
}
