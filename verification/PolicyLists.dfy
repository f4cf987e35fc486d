/** operator/feature.go: items are added to and removed from a list of the policy
    file by two scanners that work on its lines and their indentation. */
module PolicyLists {
  import opened Wrappers
  import opened Quoting
  import opened Texts
  import opened YamlScalar
  import Lines

  /** The keys that lead to the list. */
  datatype Keys = Keys(outer: string, inner: string, list: string)

  /** Where a scanner is between two lines. */
  datatype Place = Outside | Outer | Inner | Listing

  predicate Ignored(raw: string) {
    Trim(raw) == "" || "#" <= Trim(raw)
  }

  lemma IgnoredExactly(raw: string)
    ensures Ignored(raw) <==> IsNote(raw)
  {
    NoteExactly(raw);
  }

  predicate Dashed(raw: string) {
    "- " <= Trim(raw)
  }

  function KeyOn(raw: string): string {
    SplitKeyValue(Trim(raw)).key
  }

  function Next(keys: Keys, at: Place, raw: string): Place {
    if Ignored(raw) then at
    else if Indent(raw) == 0 then if KeyOn(raw) == keys.outer then Outer else Outside
    else if at.Outside? then at
    else if Indent(raw) == 2 then if KeyOn(raw) == keys.inner then Inner else Outer
    else if at.Outer? then at
    else if Indent(raw) == 4 && !Dashed(raw) then if KeyOn(raw) == keys.list then Listing else Inner
    else at
  }

  /** A line at which the first scanner leaves the list. */
  predicate Ends(raw: string) {
    !Ignored(raw) && (Indent(raw) == 0 || Indent(raw) == 2 || (Indent(raw) == 4 && !Dashed(raw)))
  }

  /** The item that a line inside the list holds. */
  function ItemOn(raw: string): Option<string> {
    if !Ignored(raw) && Indent(raw) >= 6 && Dashed(raw) then Some(Unquote(Trim(Trim(raw)[2..]))) else None
  }

  // ------------------------------------------------------------- adding items

  /** The line that opens the list, scanning from `i`; the length if none. */
  function Header(keys: Keys, lines: seq<string>, i: nat, at: Place): (h: nat)
    requires i <= |lines|
    ensures i <= h <= |lines|
    decreases |lines| - i
  {
    if i == |lines| then i
    else if Next(keys, at, lines[i]).Listing? then i
    else Header(keys, lines, i + 1, Next(keys, at, lines[i]))
  }

  /** How many of the lines after the header reach to the last item. */
  function Reach(rest: seq<string>): (n: nat)
    ensures n <= |rest|
  {
    if rest == [] || Ends(rest[0]) then 0
    else
      var n := Reach(rest[1..]);
      if n > 0 || ItemOn(rest[0]).Some? then n + 1 else 0
  }

  function Values(rest: seq<string>): set<string> {
    if rest == [] || Ends(rest[0]) then {}
    else (if ItemOn(rest[0]).Some? then {ItemOn(rest[0]).value} else {}) + Values(rest[1..])
  }

  /** The items that are not there yet, each once. */
  function Missing(there: set<string>, items: seq<string>): seq<string>
    decreases |items|
  {
    if items == [] then []
    else if items[0] in there then Missing(there, items[1..])
    else [items[0]] + Missing(there + {items[0]}, items[1..])
  }

  function ItemLine(item: string, q: Printable): string {
    "      " + ("- " + Format(item, q))
  }

  function ItemLines(items: seq<string>, q: Printable): seq<string> {
    seq(|items|, i requires 0 <= i < |items| => ItemLine(items[i], q))
  }

  function Appended(keys: Keys, lines: seq<string>, items: seq<string>, q: Printable): seq<string> {
    var h := Header(keys, lines, 0, Outside);
    if h == |lines| then lines
    else
      var rest := lines[h + 1..];
      lines[..h + 1] + rest[..Reach(rest)] + ItemLines(Missing(Values(rest), items), q) + rest[Reach(rest)..]
  }

  /** appendYAMLBlockListItems */
  method AppendBlockListItems(lines: seq<string>, keys: Keys, itemsToAdd: seq<string>, q: Printable)
    returns (out: seq<string>, changed: bool)
    ensures out == Appended(keys, lines, itemsToAdd, q)
    ensures changed <==> out != lines
  {
    hide Next, Reach, Values, Missing, ItemLines;
    var at, i := Outside, 0;
    while i < |lines| && !Next(keys, at, lines[i]).Listing?
      invariant 0 <= i <= |lines|
      invariant Header(keys, lines, 0, Outside) == Header(keys, lines, i, at)
    {
      at := Next(keys, at, lines[i]);
      i := i + 1;
    }
    if i == |lines| { return lines, false; }
    var listHeader := i;
    assert listHeader == Header(keys, lines, 0, Outside);
    ghost var rest := lines[listHeader + 1..];
    var insertAt, existing := ScanList(lines, listHeader);
    var newLines := NewLines(existing, itemsToAdd, q);
    if newLines == [] {
      assert lines == lines[..listHeader + 1] + rest[..Reach(rest)] + [] + rest[Reach(rest)..];
      return lines, false;
    }
    assert lines[..insertAt] == lines[..listHeader + 1] + rest[..Reach(rest)];
    assert lines[insertAt..] == rest[Reach(rest)..];
    out := lines[..insertAt] + newLines + lines[insertAt..];
    assert |out| > |lines|;
    return out, true;
  }

  /** The second half of the scan, after the header. */
  method ScanList(lines: seq<string>, listHeader: nat) returns (insertAt: nat, existing: set<string>)
    requires listHeader < |lines|
    ensures insertAt == listHeader + 1 + Reach(lines[listHeader + 1..])
    ensures existing == Values(lines[listHeader + 1..])
  {
    var i := listHeader + 1;
    insertAt, existing := i, {};
    while i < |lines| && !Ends(lines[i])
      invariant listHeader < i <= |lines| && listHeader < insertAt <= i
      invariant Values(lines[listHeader + 1..]) == existing + Values(lines[i..])
      invariant listHeader + 1 + Reach(lines[listHeader + 1..])
             == if Reach(lines[i..]) > 0 then i + Reach(lines[i..]) else insertAt
    {
      assert lines[i..][0] == lines[i] && lines[i..][1..] == lines[i + 1..];
      if ItemOn(lines[i]).Some? {
        existing := existing + {ItemOn(lines[i]).value};
        insertAt := i + 1;
      }
      i := i + 1;
    }
  }

  method NewLines(existing: set<string>, itemsToAdd: seq<string>, q: Printable) returns (newLines: seq<string>)
    ensures newLines == ItemLines(Missing(existing, itemsToAdd), q)
  {
    var seen := existing;
    newLines := [];
    for i := 0 to |itemsToAdd|
      invariant ItemLines(Missing(existing, itemsToAdd), q) == newLines + ItemLines(Missing(seen, itemsToAdd[i..]), q)
    {
      var item := itemsToAdd[i];
      assert itemsToAdd[i..][1..] == itemsToAdd[i + 1..];
      if item !in seen {
        LinesOfFirst(item, Missing(seen + {item}, itemsToAdd[i + 1..]), q);
        seen := seen + {item};
        newLines := newLines + [ItemLine(item, q)];
      }
    }
  }

  lemma LinesOfFirst(item: string, items: seq<string>, q: Printable)
    ensures ItemLines([item] + items, q) == [ItemLine(item, q)] + ItemLines(items, q)
  {
  }

  // ----------------------------------------------------------- removing items

  function Removed(keys: Keys, at: Place, lines: seq<string>, gone: set<string>): seq<string>
    decreases |lines|
  {
    if lines == [] then []
    else
      var item := if at.Listing? then ItemOn(lines[0]) else None;
      (if item.Some? && item.value in gone then [] else [lines[0]])
      + Removed(keys, Next(keys, at, lines[0]), lines[1..], gone)
  }

  const DOMAINS := Keys("delegation", "workspace", "allowed_domains")

  /** removeFeaturePolicyDomains, on the lines of the policy file. */
  method RemovePolicyDomains(lines: seq<string>, domainsToRemove: set<string>) returns (out: seq<string>)
    ensures out == Removed(DOMAINS, Outside, lines, domainsToRemove)
  {
    hide KeyOn, Trim, Indent, Unquote, Removed;
    out := [];
    var inDelegation, inWorkspace, inAllowedDomains := false, false, false;
    for i := 0 to |lines|
      invariant (inWorkspace ==> inDelegation) && (inAllowedDomains ==> inWorkspace)
      invariant Removed(DOMAINS, Outside, lines, domainsToRemove)
        == out + Removed(DOMAINS, PlaceOf(inDelegation, inWorkspace, inAllowedDomains), lines[i..], domainsToRemove)
    {
      var rawLine := lines[i];
      ghost var at := PlaceOf(inDelegation, inWorkspace, inAllowedDomains);
      RemovedNext(out, DOMAINS, at, lines, i, domainsToRemove);
      if !Ignored(rawLine) {
        if Indent(rawLine) == 0 {
          inDelegation, inWorkspace, inAllowedDomains := KeyOn(rawLine) == DOMAINS.outer, false, false;
        } else if inDelegation && Indent(rawLine) == 2 {
          inWorkspace, inAllowedDomains := KeyOn(rawLine) == DOMAINS.inner, false;
        } else if inWorkspace && Indent(rawLine) == 4 && !Dashed(rawLine) {
          inAllowedDomains := KeyOn(rawLine) == DOMAINS.list;
        } else if inAllowedDomains && Indent(rawLine) >= 6 && Dashed(rawLine) {
          var val := Unquote(Trim(Trim(rawLine)[2..]));
          if val in domainsToRemove { continue; }
        }
      }
      assert PlaceOf(inDelegation, inWorkspace, inAllowedDomains) == Next(DOMAINS, at, rawLine);
      out := out + [rawLine];
    }
    assert lines[|lines|..] == [];
    RemovedNothing(DOMAINS, PlaceOf(inDelegation, inWorkspace, inAllowedDomains), domainsToRemove);
  }

  lemma RemovedNext(out: seq<string>, keys: Keys, at: Place, lines: seq<string>, i: nat, gone: set<string>)
    requires i < |lines|
    ensures var item := if at.Listing? then ItemOn(lines[i]) else None;
      var others := Removed(keys, Next(keys, at, lines[i]), lines[i + 1..], gone);
      out + Removed(keys, at, lines[i..], gone)
      == if item.Some? && item.value in gone then out + others else out + [lines[i]] + others
  {
    assert lines[i..][0] == lines[i] && lines[i..][1..] == lines[i + 1..];
  }

  lemma RemovedNothing(keys: Keys, at: Place, gone: set<string>)
    ensures Removed(keys, at, [], gone) == []
  {
  }

  function PlaceOf(inOuter: bool, inInner: bool, inList: bool): Place {
    if inList then Listing else if inInner then Inner else if inOuter then Outer else Outside
  }

  // ------------------------------------------------------- how items read back

  /** A line that was added is read as its item read back, or not as an item. */
  lemma AddedLine(item: string, q: Printable)
    ensures !Ends(ItemLine(item, q))
    ensures ItemOn(ItemLine(item, q)).Some? ==> ItemOn(ItemLine(item, q)) == Some(ItemReadBack(item, q))
    ensures ItemKept(item, q) ==> ItemOn(ItemLine(item, q)) == Some(item)
  {
    var f := Format(item, q);
    var raw := ItemLine(item, q);
    IndentOfPadded("      ", "- " + f);
    DashedShape(f);
    TrimOfTrimRight(f);
    if ItemKept(item, q) {
      FormatShape(item, q);
      ItemKeptExactly(item, q);
      assert !Blank(f) by { assert f[0] in f; }
    }
    TrimLeavesTrimmed(Trim(f));
  }

  lemma DashedShape(f: string)
    ensures Trim("      " + ("- " + f)) == if Blank(f) then "-" else "- " + TrimRight(f)
  {
    var dashed := "- " + f;
    TrimLeftOfPadded("      ", dashed);
    TrimRightOfJoin("- ", f);
    assert TrimRight("- ") == "-" by {
      assert "- "[..1] == "-";
    }
  }

  // ------------------------------------------------------------ the scanners

  function After(keys: Keys, at: Place, lines: seq<string>): Place
    decreases |lines|
  {
    if lines == [] then at else After(keys, Next(keys, at, lines[0]), lines[1..])
  }

  ghost predicate NoneEnds(lines: seq<string>) {
    forall i | 0 <= i < |lines| :: !Ends(lines[i])
  }

  lemma {:induction false} StaysListing(keys: Keys, lines: seq<string>)
    requires NoneEnds(lines)
    ensures After(keys, Listing, lines) == Listing
    decreases |lines|
  {
    if lines != [] { StaysListing(keys, lines[1..]); }
  }

  lemma {:induction false} AfterJoin(keys: Keys, at: Place, a: seq<string>, b: seq<string>)
    ensures After(keys, at, a + b) == After(keys, After(keys, at, a), b)
    decreases |a|
  {
    if a == [] {
      assert a + b == b;
    } else {
      assert (a + b)[1..] == a[1..] + b;
      AfterJoin(keys, Next(keys, at, a[0]), a[1..], b);
    }
  }

  lemma {:induction false} RemovedJoin(keys: Keys, at: Place, a: seq<string>, b: seq<string>, gone: set<string>)
    ensures Removed(keys, at, a + b, gone) == Removed(keys, at, a, gone) + Removed(keys, After(keys, at, a), b, gone)
    decreases |a|
  {
    hide Next, ItemOn;
    if a == [] {
      assert a + b == b;
    } else {
      assert (a + b)[1..] == a[1..] + b;
      RemovedJoin(keys, Next(keys, at, a[0]), a[1..], b, gone);
    }
  }

  /** After its header line a scanner is in the list. */
  lemma {:induction false} HeaderOpens(keys: Keys, lines: seq<string>, i: nat, at: Place)
    requires i <= |lines| && Header(keys, lines, i, at) < |lines|
    ensures After(keys, at, lines[i..Header(keys, lines, i, at) + 1]) == Listing
    decreases |lines| - i
  {
    hide Next;
    var h := Header(keys, lines, i, at);
    assert lines[i..h + 1][0] == lines[i] && lines[i..h + 1][1..] == lines[i + 1..h + 1];
    if !Next(keys, at, lines[i]).Listing? {
      HeaderOpens(keys, lines, i + 1, Next(keys, at, lines[i]));
    } else {
      assert lines[i + 1..h + 1] == [];
    }
  }

  lemma {:induction false} SameHeader(keys: Keys, lines: seq<string>, out: seq<string>, i: nat, at: Place)
    requires i <= |lines| && i <= |out|
    requires var h := Header(keys, lines, i, at); h < |lines| && h < |out| && lines[..h + 1] == out[..h + 1]
    ensures Header(keys, out, i, at) == Header(keys, lines, i, at)
    decreases |lines| - i
  {
    hide Next;
    var h := Header(keys, lines, i, at);
    assert lines[i] == lines[..h + 1][i] == out[..h + 1][i] == out[i];
    if !Next(keys, at, lines[i]).Listing? {
      SameHeader(keys, lines, out, i + 1, Next(keys, at, lines[i]));
    }
  }

  lemma {:induction false} ReachIsOpen(rest: seq<string>)
    ensures NoneEnds(rest[..Reach(rest)]) && Values(rest[Reach(rest)..]) == {}
    decreases |rest|
  {
    if rest != [] && !Ends(rest[0]) {
      ReachIsOpen(rest[1..]);
      var n := Reach(rest);
      if n > 0 {
        assert rest[..n] == [rest[0]] + rest[1..][..n - 1];
        assert rest[n..] == rest[1..][n - 1..];
      } else {
        assert rest[1..][0..] == rest[1..];
      }
    }
  }

  lemma {:induction false} ValuesJoin(a: seq<string>, b: seq<string>)
    requires NoneEnds(a)
    ensures Values(a + b) == Values(a) + Values(b)
    decreases |a|
  {
    if a == [] {
      assert a + b == b;
    } else {
      assert (a + b)[1..] == a[1..] + b;
      ValuesJoin(a[1..], b);
    }
  }

  lemma {:induction false} MissingExactly(there: set<string>, items: seq<string>, v: string)
    ensures v in Missing(there, items) <==> v in items && v !in there
    decreases |items|
  {
    if items != [] {
      assert items == [items[0]] + items[1..];
      MissingExactly(if items[0] in there then there else there + {items[0]}, items[1..], v);
    }
  }

  lemma {:induction false} ValuesOfAdded(items: seq<string>, q: Printable)
    ensures NoneEnds(ItemLines(items, q))
    ensures forall v | v in Values(ItemLines(items, q)) :: exists i | 0 <= i < |items| :: v == ItemReadBack(items[i], q)
    ensures forall i | 0 <= i < |items| && ItemKept(items[i], q) :: items[i] in Values(ItemLines(items, q))
    decreases |items|
  {
    hide Ends, ItemOn, ItemReadBack, ItemKept, ItemLine;
    if items != [] {
      assert items == [items[0]] + items[1..];
      LinesOfFirst(items[0], items[1..], q);
      AddedLine(items[0], q);
      ValuesOfAdded(items[1..], q);
      assert ItemLines(items, q)[1..] == ItemLines(items[1..], q);
    }
  }

  // ----------------------------------------------------------- main theorems

  predicate AllKept(items: seq<string>, q: Printable) {
    forall i | 0 <= i < |items| :: ItemKept(items[i], q)
  }

  /** Removing every line that was added leaves nothing of them. */
  lemma {:induction false} AddedAreRemoved(keys: Keys, items: seq<string>, gone: set<string>, q: Printable)
    requires AllKept(items, q) && forall i | 0 <= i < |items| :: items[i] in gone
    ensures Removed(keys, Listing, ItemLines(items, q), gone) == []
    decreases |items|
  {
    if items != [] {
      assert items == [items[0]] + items[1..];
      LinesOfFirst(items[0], items[1..], q);
      AddedLine(items[0], q);
      assert ItemLines(items, q)[1..] == ItemLines(items[1..], q);
      assert Next(keys, Listing, ItemLine(items[0], q)) == Listing;
      AddedAreRemoved(keys, items[1..], gone, q);
    }
  }

  lemma InTheMiddle(keys: Keys, a: seq<string>, items: seq<string>, b: seq<string>, gone: set<string>, q: Printable)
    requires After(keys, Outside, a) == Listing
    requires AllKept(items, q) && forall i | 0 <= i < |items| :: items[i] in gone
    ensures Removed(keys, Outside, a + ItemLines(items, q) + b, gone) == Removed(keys, Outside, a + b, gone)
  {
    hide Removed, After, ItemLines, Next, Ends;
    var added := ItemLines(items, q);
    ValuesOfAdded(items, q);
    StaysListing(keys, added);
    AfterJoin(keys, Outside, a, added);
    RemovedJoin(keys, Outside, a + added, b, gone);
    RemovedJoin(keys, Outside, a, added, gone);
    RemovedJoin(keys, Outside, a, b, gone);
    AddedAreRemoved(keys, items, gone, q);
  }

  /** Where the new lines go: inside the list, after its last item. */
  lemma InsertionPoint(keys: Keys, lines: seq<string>)
    requires Header(keys, lines, 0, Outside) < |lines|
    ensures var h := Header(keys, lines, 0, Outside); var rest := lines[h + 1..];
      && After(keys, Outside, lines[..h + 1] + rest[..Reach(rest)]) == Listing
      && lines[..h + 1] + rest[..Reach(rest)] + rest[Reach(rest)..] == lines
  {
    hide Next, Reach, Ends, After, Header;
    var h := Header(keys, lines, 0, Outside);
    var rest := lines[h + 1..];
    HeaderOpens(keys, lines, 0, Outside);
    assert lines[0..h + 1] == lines[..h + 1];
    ReachIsOpen(rest);
    StaysListing(keys, rest[..Reach(rest)]);
    AfterJoin(keys, Outside, lines[..h + 1], rest[..Reach(rest)]);
  }

  /** Removing items after adding them is removing them without adding them: so
      the original lines come back exactly when none of the items was there. */
  lemma RemoveAfterAppend(keys: Keys, lines: seq<string>, items: seq<string>, q: Printable)
    requires AllKept(items, q)
    ensures Removed(keys, Outside, Appended(keys, lines, items, q), (set item <- items))
         == Removed(keys, Outside, lines, (set item <- items))
  {
    var h := Header(keys, lines, 0, Outside);
    if h < |lines| {
      var rest := lines[h + 1..];
      var added := Missing(Values(rest), items);
      InsertionPoint(keys, lines);
      forall i | 0 <= i < |added| ensures added[i] in items && ItemKept(added[i], q) {
        MissingExactly(Values(rest), items, added[i]);
      }
      InTheMiddle(keys, lines[..h + 1] + rest[..Reach(rest)], added, rest[Reach(rest)..], (set item <- items), q);
    }
  }

  /** What the list holds after an addition. */
  lemma ValuesAfter(keys: Keys, lines: seq<string>, items: seq<string>, q: Printable)
    requires Header(keys, lines, 0, Outside) < |lines|
    ensures var h := Header(keys, lines, 0, Outside); var out := Appended(keys, lines, items, q);
      var there := Values(lines[h + 1..]);
      && h < |out| && Header(keys, out, 0, Outside) == h
      && Values(out[h + 1..]) == there + Values(ItemLines(Missing(there, items), q))
  {
    hide Values, Missing, ItemLines, Reach, Header, Ends;
    var h := Header(keys, lines, 0, Outside);
    var rest, out := lines[h + 1..], Appended(keys, lines, items, q);
    var a, b := rest[..Reach(rest)], rest[Reach(rest)..];
    var added := Missing(Values(rest), items);
    assert out[..h + 1] == lines[..h + 1];
    SameHeader(keys, lines, out, 0, Outside);
    assert out[h + 1..] == a + (ItemLines(added, q) + b);
    assert rest == a + b;
    ReachIsOpen(rest);
    ValuesOfAdded(added, q);
    ValuesJoin(ItemLines(added, q), b);
    ValuesJoin(a, ItemLines(added, q) + b);
    ValuesJoin(a, b);
  }

  lemma {:induction false} NoneMissing(there: set<string>, items: seq<string>)
    requires forall item <- items :: item in there
    ensures Missing(there, items) == []
    decreases |items|
  {
    if items != [] {
      assert items == [items[0]] + items[1..];
      NoneMissing(there, items[1..]);
    }
  }

  lemma {:induction false} NoLines(q: Printable)
    ensures ItemLines([], q) == []
  {
  }

  /** When nothing is missing nothing changes. */
  lemma AppendNothing(keys: Keys, lines: seq<string>, items: seq<string>, q: Printable)
    requires Header(keys, lines, 0, Outside) < |lines|
    ensures var missing := Missing(Values(lines[Header(keys, lines, 0, Outside) + 1..]), items);
      |Appended(keys, lines, items, q)| == |lines| + |missing|
        && (missing == [] ==> Appended(keys, lines, items, q) == lines)
  {
    hide Next, Reach, Ends, After, Header, Values, Missing;
    InsertionPoint(keys, lines);
    NoLines(q);
  }

  lemma MissingOne(there: set<string>, item: string)
    ensures Missing(there, [item]) == if item in there then [] else [item]
  {
  }

  /** Every old line stays, in order, around the lines that are new; items that
      read back are in the list afterwards, and adding them again changes
      nothing. */
  lemma AppendIsIdempotent(keys: Keys, lines: seq<string>, items: seq<string>, q: Printable)
    requires AllKept(items, q) && Header(keys, lines, 0, Outside) < |lines|
    ensures var h := Header(keys, lines, 0, Outside); var out := Appended(keys, lines, items, q);
      && Header(keys, out, 0, Outside) == h < |out|
      && (forall item <- items :: item in Values(out[h + 1..]))
      && Appended(keys, out, items, q) == out
      && exists p | h < p <= |lines| ::
        out == lines[..p] + ItemLines(Missing(Values(lines[h + 1..]), items), q) + lines[p..]
  {
    hide Values, Missing, Reach, Header, Ends, ItemKept, ItemLines;
    var h := Header(keys, lines, 0, Outside);
    var there, out := Values(lines[h + 1..]), Appended(keys, lines, items, q);
    var added := Missing(there, items);
    ValuesAfter(keys, lines, items, q);
    forall item <- items ensures item in Values(out[h + 1..]) {
      MissingExactly(there, items, item);
      if item !in there {
        var i :| 0 <= i < |added| && added[i] == item;
        ValuesOfAdded(added, q);
      }
    }
    NoneMissing(Values(out[h + 1..]), items);
    AppendNothing(keys, out, items, q);
    AppendedAround(keys, lines, items, q);
  }

  lemma AppendedAround(keys: Keys, lines: seq<string>, items: seq<string>, q: Printable)
    requires Header(keys, lines, 0, Outside) < |lines|
    ensures var h := Header(keys, lines, 0, Outside);
      exists p | h < p <= |lines| ::
        Appended(keys, lines, items, q)
        == lines[..p] + ItemLines(Missing(Values(lines[h + 1..]), items), q) + lines[p..]
  {
    hide Header, Missing, Values, Reach, ItemLines;
    var h := Header(keys, lines, 0, Outside);
    var rest := lines[h + 1..];
    var p := h + 1 + Reach(rest);
    assert lines[..p] == lines[..h + 1] + rest[..Reach(rest)] && lines[p..] == rest[Reach(rest)..];
  }

  lemma ValueOfOne(item: string, q: Printable)
    ensures item in Values(ItemLines([item], q)) <==> ItemKept(item, q)
  {
    hide ItemKept, ItemReadBack, ItemLines, Values;
    ValuesOfAdded([item], q);
    ItemKeptExactly(item, q);
    assert [item][0] == item;
  }

  /** What one addition leaves in the list. */
  lemma HasAfter(keys: Keys, lines: seq<string>, item: string, q: Printable)
    requires Header(keys, lines, 0, Outside) < |lines|
    ensures var h := Header(keys, lines, 0, Outside); var out := Appended(keys, lines, [item], q);
      && Header(keys, out, 0, Outside) == h < |out|
      && (item in Values(out[h + 1..]) <==> item in Values(lines[h + 1..]) || ItemKept(item, q))
  {
    hide Values, Missing, Reach, Header, Ends, ItemKept, ItemLines, ItemReadBack, Appended;
    ValuesAfter(keys, lines, [item], q);
    MissingOne(Values(lines[Header(keys, lines, 0, Outside) + 1..]), item);
    ValueOfOne(item, q);
  }

  /** Adding one item twice is adding it once exactly when there is no list to
      add to, the item is there, or it reads back as itself. */
  lemma AppendOnceExactly(keys: Keys, lines: seq<string>, item: string, q: Printable)
    ensures var h := Header(keys, lines, 0, Outside); var out := Appended(keys, lines, [item], q);
      Appended(keys, out, [item], q) == out
      <==> h == |lines| || item in Values(lines[h + 1..]) || ItemKept(item, q)
  {
    if Header(keys, lines, 0, Outside) < |lines| {
      hide Values, Missing, Reach, Header, Ends, ItemKept, ItemLines, ItemReadBack, Appended;
      var h, out := Header(keys, lines, 0, Outside), Appended(keys, lines, [item], q);
      HasAfter(keys, lines, item, q);
      MissingOne(Values(out[h + 1..]), item);
      AppendNothing(keys, out, [item], q);
    } else {
      assert Appended(keys, lines, [item], q) == lines;
    }
  }

  /** A policy file and an item with a double quote, which is added once more
      with every call. */
  lemma QuotedItemIsAddedTwice(q: Printable) returns (lines: seq<string>, item: string)
    ensures var once := Appended(DOMAINS, lines, [item], q); Appended(DOMAINS, once, [item], q) != once
  {
    var first := OuterLine();
    var second := InnerLine();
    var third := ListLine();
    lines, item := [first, second, third], "\"";
    HeaderIsThird(DOMAINS, lines);
    QuoteIsNotKept(item, q);
    assert lines[3..] == [];
    assert Values(lines[3..]) == {};
    hide ItemKept, Values, Header, Appended;
    AppendOnceExactly(DOMAINS, lines, item, q);
  }

  lemma QuoteIsNotKept(item: string, q: Printable)
    requires item == "\""
    ensures !ItemKept(item, q)
  {
    NoArrow(item);
    assert item[0] == '"' && Special(item[0]) && !Plain(item[0], q);
  }

  lemma HeaderIsThird(keys: Keys, lines: seq<string>)
    requires |lines| == 3 && Next(keys, Outside, lines[0]) == Outer
    requires Next(keys, Outer, lines[1]) == Inner && Next(keys, Inner, lines[2]) == Listing
    ensures Header(keys, lines, 0, Outside) == 2
  {
    hide Next;
    assert Header(keys, lines, 2, Inner) == 2;
    assert Header(keys, lines, 1, Outer) == 2;
  }

  lemma OuterLine() returns (raw: string)
    ensures Next(DOMAINS, Outside, raw) == Outer
  {
    raw := "" + (DOMAINS.outer + ":");
    KeyLine("", DOMAINS.outer);
  }

  lemma InnerLine() returns (raw: string)
    ensures Next(DOMAINS, Outer, raw) == Inner
  {
    raw := "  " + (DOMAINS.inner + ":");
    KeyLine("  ", DOMAINS.inner);
    hide Ignored, Indent, KeyOn;
  }

  lemma ListLine() returns (raw: string)
    ensures Next(DOMAINS, Inner, raw) == Listing
  {
    hide Ignored, Indent, KeyOn, Dashed, Key;
    raw := "    " + (DOMAINS.list + ":");
    ListKeyIsKey();
    KeyLine("    ", DOMAINS.list);
  }

  lemma ListKeyIsKey()
    ensures Key(DOMAINS.list)
  {
  }

  lemma KeyLine(pad: string, key: string)
    requires (forall i | 0 <= i < |pad| :: pad[i] == ' ') && Key(key)
    ensures var raw := pad + (key + ":");
      !Ignored(raw) && !Dashed(raw) && Indent(raw) == |pad| && KeyOn(raw) == key
  {
    var t := key + ":";
    SplitOfHeader(key);
    assert t[0] == key[0];
    TrimOfPadded(pad, t);
    IndentOfPadded(pad, t);
  }

  /** The items of every list that the second scanner works on. */
  function Listed(keys: Keys, at: Place, lines: seq<string>): set<string>
    decreases |lines|
  {
    if lines == [] then {}
    else
      (if at.Listing? && ItemOn(lines[0]).Some? then {ItemOn(lines[0]).value} else {})
      + Listed(keys, Next(keys, at, lines[0]), lines[1..])
  }

  lemma {:induction false} RemovedKeepsExactly(keys: Keys, at: Place, lines: seq<string>, gone: set<string>)
    ensures |Removed(keys, at, lines, gone)| <= |lines|
    ensures Removed(keys, at, lines, gone) == lines <==> Listed(keys, at, lines) !! gone
    decreases |lines|
  {
    if lines != [] {
      hide Next, ItemOn;
      var rest := Removed(keys, Next(keys, at, lines[0]), lines[1..], gone);
      RemovedKeepsExactly(keys, Next(keys, at, lines[0]), lines[1..], gone);
      assert lines == [lines[0]] + lines[1..];
      assert ([lines[0]] + rest)[1..] == rest;
    }
  }

  /** The original lines come back exactly when no requested item was in any of
      the lists before. */
  lemma RestoredExactly(keys: Keys, lines: seq<string>, items: seq<string>, q: Printable)
    requires AllKept(items, q)
    ensures Removed(keys, Outside, Appended(keys, lines, items, q), (set item <- items)) == lines
       <==> Listed(keys, Outside, lines) !! (set item <- items)
  {
    RemoveAfterAppend(keys, lines, items, q);
    RemovedKeepsExactly(keys, Outside, lines, (set item <- items));
  }

  // ---------------------------------------------------------------- the file

  /** insertPolicyItems, for the domains, on the text of the file. */
  function InsertedText(content: string, items: seq<string>, q: Printable): string {
    Lines.Join(Appended(DOMAINS, Lines.Split(Lines.UnixText(content), '\n'), items, q), '\n')
  }

  function RemovedText(content: string, gone: set<string>): string {
    Lines.Join(Removed(DOMAINS, Outside, Lines.Split(Lines.UnixText(content), '\n'), gone), '\n')
  }

  predicate OneLine(text: string) {
    '\n' !in text && '\r' !in text
  }

  lemma {:induction false} EscapeIsOneLine(v: string, q: Printable)
    requires AllPlain(v, q)
    ensures OneLine(Escape(v, q))
  {
    EscapeLength(v, q);
  }

  lemma ItemLineIsOneLine(item: string, q: Printable)
    requires ItemKept(item, q) && OneLine(item)
    ensures OneLine(ItemLine(item, q))
  {
    if AllPlain(item, q) { EscapeIsOneLine(item, q); }
  }

  lemma AppendedAreOneLine(keys: Keys, lines: seq<string>, items: seq<string>, q: Printable)
    requires AllKept(items, q) && (forall line <- lines :: OneLine(line)) && forall item <- items :: OneLine(item)
    ensures forall line <- Appended(keys, lines, items, q) :: OneLine(line)
  {
    hide OneLine, ItemKept, ItemLine, Header, Missing, Values;
    var h := Header(keys, lines, 0, Outside);
    if h < |lines| {
      var rest := lines[h + 1..];
      var added := Missing(Values(rest), items);
      forall i | 0 <= i < |added| ensures OneLine(ItemLine(added[i], q)) {
        MissingExactly(Values(rest), items, added[i]);
        ItemLineIsOneLine(added[i], q);
      }
    }
  }

  /** Removing a feature's domains from the policy file after adding them is
      removing them from the original file, if that has no carriage returns. */
  lemma RemovedFromFile(content: string, items: seq<string>, q: Printable)
    requires '\r' !in content && AllKept(items, q) && forall item <- items :: OneLine(item)
    ensures RemovedText(InsertedText(content, items, q), (set item <- items))
         == RemovedText(content, (set item <- items))
  {
    hide Lines.Split, Lines.Join, Lines.UnixText, Appended, Removed, ItemKept;
    var lines := Lines.Split(content, '\n');
    var out := Appended(DOMAINS, lines, items, q);
    Lines.UnixWithoutReturns(content);
    Lines.SplitKeepsOut(content, '\n', '\r');
    Lines.SplitHasNoSeparator(content, '\n');
    AppendedAreOneLine(DOMAINS, lines, items, q);
    AppendedIsLonger(DOMAINS, lines, items, q);
    Lines.JoinKeepsOut(out, '\n', '\r');
    Lines.UnixWithoutReturns(Lines.Join(out, '\n'));
    Lines.SplitOfJoin(out, '\n');
    RemoveAfterAppend(DOMAINS, lines, items, q);
  }

  lemma {:induction false} RemovedAreOld(keys: Keys, at: Place, lines: seq<string>, gone: set<string>)
    ensures forall line <- Removed(keys, at, lines, gone) :: line in lines
    ensures at == Outside && lines != [] ==> Removed(keys, at, lines, gone) != []
    decreases |lines|
  {
    if lines != [] {
      hide Next, ItemOn;
      RemovedAreOld(keys, Next(keys, at, lines[0]), lines[1..], gone);
      assert lines == [lines[0]] + lines[1..];
    }
  }

  /** The original text comes back exactly when no requested item was in any
      matching list before. */
  lemma FileIsRestoredExactly(content: string, items: seq<string>, q: Printable)
    requires '\r' !in content && AllKept(items, q) && forall item <- items :: OneLine(item)
    ensures RemovedText(InsertedText(content, items, q), (set item <- items)) == content
       <==> Listed(DOMAINS, Outside, Lines.Split(content, '\n')) !! (set item <- items)
  {
    hide Lines.Split, Lines.Join, Lines.UnixText, Appended, Removed, ItemKept, Listed;
    var lines, gone := Lines.Split(content, '\n'), (set item <- items);
    var kept := Removed(DOMAINS, Outside, lines, gone);
    Lines.UnixWithoutReturns(content);
    RemovedFromFile(content, items, q);
    RemovedKeepsExactly(DOMAINS, Outside, lines, gone);
    RemovedAreOld(DOMAINS, Outside, lines, gone);
    Lines.SplitHasNoSeparator(content, '\n');
    Lines.SplitOfJoin(kept, '\n');
    Lines.JoinOfSplit(content, '\n');
  }

  lemma AppendedIsLonger(keys: Keys, lines: seq<string>, items: seq<string>, q: Printable)
    ensures |Appended(keys, lines, items, q)| >= |lines|
  {
  }
}
