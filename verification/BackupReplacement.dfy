/** operator/backup.go: the tree that replaces a root on a durable restore, built
    from the extracted archive and from what is kept of the running system. */
module BackupReplacement {
  import opened Wrappers
  import opened Texts
  import opened BackupTree
  import opened BackupArchive
  import opened BackupExtract
  import opened BackupRules

  /** Through: the archive has a link where the running system has a generated
      directory, and the code follows the link. */
  datatype Built = Replaced(fs: Layout) | Refused | Through

  /** What a walk visits below the root, in order. */
  function Entries(n: Node, takes: Filter): seq<Member> {
    if n.Dir? then WalkForest([], [], n.entries, takes) else []
  }

  predicate Inside(ms: seq<Member>) {
    forall i | 0 <= i < |ms| :: ms[i].path != []
  }

  // -------------------------------------------------------- the two walks

  function Parent(path: Path): Path
    requires path != []
  {
    path[..|path| - 1]
  }

  predicate IsDir(fs: Layout, path: Path) {
    path in fs && fs[path].DirItem?
  }

  /** os.RemoveAll */
  function Without(fs: Layout, path: Path): Layout {
    map q | q in fs && !(path <= q) :: fs[q]
  }

  /** restoreDurableTreeFiltered, for one entry. */
  function RestoreOne(fs: Layout, m: Member): Option<Layout>
    requires m.path != []
  {
    match m.item
    case DirItem => MakeAll(fs, m.path)
    case LinkItem(target) =>
      if !SafeLink([RESTORE_ROOT] + m.path, target) || (|m.path| > 1 && !IsDir(fs, Parent(m.path))) then None
      else Some(Without(fs, m.path)[m.path := m.item])
    case FileItem(_) =>
      var made := MakeAll(fs, Parent(m.path));
      if made.None? || IsDir(made.value, m.path) then None else Some(made.value[m.path := m.item])
  }

  function RestoreAll(fs: Layout, ms: seq<Member>): Option<Layout>
    requires Inside(ms)
    decreases |ms|
  {
    if ms == [] then Some(fs)
    else
      var next := RestoreOne(fs, ms[0]);
      if next.None? then None else RestoreAll(next.value, ms[1..])
  }

  /** os.MkdirAll where there may be links. */
  function MakeDirs(fs: Layout, path: Path): Built {
    var made := MakeAll(fs, path);
    if made.Some? then Replaced(made.value)
    else if exists i | 0 < i <= |path| :: path[..i] in fs && fs[path[..i]].LinkItem? then Through
    else Refused
  }

  predicate Passed(m: Member) {
    m.path != [] && m.item.FileItem?
    && (HasSuffix(Base(m.path), ".sock") || HasSuffix(Base(m.path), ".pid") || HasSuffix(Base(m.path), ".lock"))
  }

  /** copyGeneratedTree and copyRestoreEntry, for one entry. */
  function CopyOne(fs: Layout, m: Member): Built
    requires m.path != []
  {
    if m.item.DirItem? then MakeDirs(fs, m.path)
    else if m.item.LinkItem? && !SafeLink([Base(m.path)], m.item.target) then Refused
    else if Passed(m) then Replaced(fs)
    else
      var made := MakeDirs(fs, Parent(m.path));
      if !made.Replaced? then made
      else if m.path in made.fs && (m.item.LinkItem? || made.fs[m.path].DirItem?) then Refused
      else Replaced(made.fs[m.path := m.item])
  }

  function CopyAll(fs: Layout, ms: seq<Member>): Built
    requires Inside(ms)
    decreases |ms|
  {
    if ms == [] then Replaced(fs)
    else
      var before := CopyAll(fs, ms[..|ms| - 1]);
      if before.Replaced? then CopyOne(before.fs, ms[|ms| - 1]) else before
  }

  /** buildDurableReplacement: first the archive, then what is kept. */
  function Build(archived: Node, current: Node, generated: Filter): Built {
    EntriesInside(archived, Everything);
    EntriesInside(current, generated);
    var restored := RestoreAll(map[], Entries(archived, Everything));
    if restored.None? then Refused else CopyAll(restored.value, Entries(current, generated))
  }

  lemma EntriesInside(n: Node, takes: Filter)
    ensures Inside(Entries(n, takes))
  {
    if n.Dir? { ForestInside([], [], n.entries, takes); }
  }

  lemma {:induction false} ForestInside(path: Path, rel: Path, f: Forest, takes: Filter)
    ensures Inside(WalkForest(path, rel, f, takes))
    decreases f, 0
  {
    if f.Entry? {
      ForestInside(path, rel, f.rest, takes);
      NodeInside(path + [f.name], rel + [f.name], f.node, takes);
    }
  }

  lemma {:induction false} NodeInside(path: Path, rel: Path, n: Node, takes: Filter)
    requires path != []
    ensures Inside(Walk(path, rel, n, takes))
    decreases n, 1
  {
    if n.Dir? { ForestInside(path, rel, n.entries, takes); }
  }

  // ------------------------------------------------------ the order of a walk

  predicate HasDir(ms: seq<Member>, n: nat, path: Path) {
    exists j | 0 <= j < n && j < |ms| :: ms[j] == Member(path, DirItem)
  }

  /** The directories above a member, those of more than `base` segments, come
      before it. */
  predicate ParentsFirst(ms: seq<Member>, base: int) {
    forall i, n | 0 <= i < |ms| && base < n < |ms[i].path| && 0 <= n :: HasDir(ms, i, ms[i].path[..n])
  }

  predicate DistinctPaths(ms: seq<Member>) {
    forall i, j | 0 <= i < j < |ms| :: ms[i].path != ms[j].path
  }

  lemma ParentsFirstJoin(a: seq<Member>, b: seq<Member>, base: int)
    requires ParentsFirst(a, base) && ParentsFirst(b, base)
    ensures ParentsFirst(a + b, base)
  {
    var ms := a + b;
    forall i, n | 0 <= i < |ms| && base < n < |ms[i].path| && 0 <= n
      ensures HasDir(ms, i, ms[i].path[..n])
    {
      if i < |a| {
        assert HasDir(a, i, a[i].path[..n]);
        var j :| 0 <= j < i && a[j] == Member(a[i].path[..n], DirItem);
        assert ms[j] == a[j];
      } else {
        assert HasDir(b, i - |a|, b[i - |a|].path[..n]);
        var j :| 0 <= j < i - |a| && b[j] == Member(b[i - |a|].path[..n], DirItem);
        assert ms[|a| + j] == b[j];
      }
    }
  }

  lemma ParentsFirstUnder(path: Path, inner: seq<Member>)
    requires ParentsFirst(inner, |path|) && forall m <- inner :: path <= m.path
    ensures ParentsFirst([Member(path, DirItem)] + inner, |path| - 1)
  {
    var ms := [Member(path, DirItem)] + inner;
    forall i, n | 0 <= i < |ms| && |path| - 1 < n < |ms[i].path| && 0 <= n
      ensures HasDir(ms, i, ms[i].path[..n])
    {
      assert i > 0 && ms[i] == inner[i - 1] && ms[i] in inner;
      if n == |path| {
        assert ms[0] == Member(ms[i].path[..n], DirItem);
      } else {
        assert HasDir(inner, i - 1, inner[i - 1].path[..n]);
        var j :| 0 <= j < i - 1 && inner[j] == Member(inner[i - 1].path[..n], DirItem);
        assert ms[j + 1] == inner[j];
      }
    }
  }

  lemma {:induction false} WalkOrder(path: Path, rel: Path, n: Node, takes: Filter)
    ensures ParentsFirst(Walk(path, rel, n, takes), |path| - 1)
    decreases n, 1
  {
    hide HasDir;
    if n.Dir? {
      ForestOrder(path, rel, n.entries, takes);
      WalkForestIsBelow(path, rel, n.entries, takes);
      ParentsFirstUnder(path, WalkForest(path, rel, n.entries, takes));
    }
  }

  lemma {:induction false} ForestOrder(path: Path, rel: Path, f: Forest, takes: Filter)
    ensures ParentsFirst(WalkForest(path, rel, f, takes), |path|)
    decreases f, 0
  {
    hide HasDir;
    if f.Entry? {
      var child := path + [f.name];
      WalkOrder(child, rel + [f.name], f.node, takes);
      ForestOrder(path, rel, f.rest, takes);
      ParentsFirstJoin(
        if takes(rel + [f.name], f.node.Dir?) then Walk(child, rel + [f.name], f.node, takes) else [],
        WalkForest(path, rel, f.rest, takes), |path|);
    }
  }

  /** In an archive of both roots every directory comes before what it holds. */
  lemma ParentsPrecede(hermes: Node, meta: Node, takesHermes: Filter, takesMeta: Filter)
    ensures ParentsFirst(DurableMembers(hermes, meta, takesHermes, takesMeta), 0)
  {
    WalkOrder(HERMES, [], hermes, takesHermes);
    WalkOrder(META, [], meta, takesMeta);
    ParentsFirstJoin(Walk(HERMES, [], hermes, takesHermes), Walk(META, [], meta, takesMeta), 0);
  }

  // ------------------------------------------------- a walk and its layout

  /** The list of members is the map of the same walk. */
  predicate SameAs(ms: seq<Member>, flat: Layout) {
    && DistinctPaths(ms)
    && (forall i | 0 <= i < |ms| :: ms[i].path in flat && flat[ms[i].path] == ms[i].item)
    && forall q <- flat :: Member(q, flat[q]) in ms
  }

  lemma SameAsJoin(a: seq<Member>, x: Layout, b: seq<Member>, y: Layout)
    requires SameAs(a, x) && SameAs(b, y) && x.Keys !! y.Keys
    ensures SameAs(a + b, x + y)
  {
    var ms, flat := a + b, x + y;
    forall i | 0 <= i < |ms| ensures ms[i].path in flat && flat[ms[i].path] == ms[i].item {
      if i < |a| { assert ms[i] == a[i]; } else { assert ms[i] == b[i - |a|]; }
    }
    forall q <- flat ensures Member(q, flat[q]) in ms {
      if q in y { assert Member(q, y[q]) in b; } else { assert Member(q, x[q]) in a; }
    }
    forall i, j | 0 <= i < j < |ms| ensures ms[i].path != ms[j].path {
      if i < |a| <= j { assert a[i].path in x && b[j - |a|].path in y; }
    }
  }

  lemma SameAsOne(path: Path, item: Item)
    ensures SameAs([Member(path, item)], map[path := item])
  {
  }

  lemma {:induction false} WalkIsFlat(path: Path, rel: Path, n: Node, takes: Filter)
    requires Proper(n)
    ensures SameAs(Walk(path, rel, n, takes), Flatten(path, rel, n, takes))
    decreases n, 1
  {
    hide SameAs;
    match n {
      case File(data) => SameAsOne(path, FileItem(data));
      case Link(target) => SameAsOne(path, LinkItem(target));
      case Special => SameAsNone();
      case Dir(entries) =>
        SameAsOne(path, DirItem);
        ForestIsFlat(path, rel, entries, takes);
        FlattenForestIsBelow(path, rel, entries, takes);
        SameAsJoin([Member(path, DirItem)], map[path := DirItem], WalkForest(path, rel, entries, takes),
                   FlattenForest(path, rel, entries, takes));
    }
  }

  lemma SameAsNone()
    ensures SameAs([], map[])
  {
  }

  lemma {:induction false} ForestIsFlat(path: Path, rel: Path, f: Forest, takes: Filter)
    requires ProperForest(f)
    ensures SameAs(WalkForest(path, rel, f, takes), FlattenForest(path, rel, f, takes))
    decreases f, 0
  {
    hide SameAs;
    SameAsNone();
    if f.Entry? {
      var child, sub := path + [f.name], rel + [f.name];
      WalkIsFlat(child, sub, f.node, takes);
      ForestIsFlat(path, rel, f.rest, takes);
      FlattenForestIsBelow(path, rel, f.rest, takes);
      FlattenIsBelow(child, sub, f.node, takes);
      if takes(sub, f.node.Dir?) {
        forall q <- Flatten(child, sub, f.node, takes) ensures q !in FlattenForest(path, rel, f.rest, takes) {
          assert child <= q && q[|path|] == f.name;
        }
        SameAsJoin(Walk(child, sub, f.node, takes), Flatten(child, sub, f.node, takes),
                   WalkForest(path, rel, f.rest, takes), FlattenForest(path, rel, f.rest, takes));
      } else {
        SameAsJoin([], map[], WalkForest(path, rel, f.rest, takes), FlattenForest(path, rel, f.rest, takes));
      }
    }
  }

  /** What a walk finds below the root, by path. */
  function LayoutOf(n: Node, takes: Filter): Layout {
    if n.Dir? then FlattenForest([], [], n.entries, takes) else map[]
  }

  /** What is kept of the running system. */
  function KeptLayout(current: Node, generated: Filter): Layout {
    var flat := LayoutOf(current, generated);
    map q | q in flat && !Passed(Member(q, flat[q])) :: flat[q]
  }

  lemma EntriesAreLayout(n: Node, takes: Filter)
    requires Proper(n)
    ensures SameAs(Entries(n, takes), LayoutOf(n, takes)) && ParentsFirst(Entries(n, takes), 0)
  {
    if n.Dir? {
      ForestIsFlat([], [], n.entries, takes);
      ForestOrder([], [], n.entries, takes);
    }
  }

  // ------------------------------------------------------- the archived part

  predicate LinksRestorable(ms: seq<Member>) {
    forall i | 0 <= i < |ms| :: ms[i].path != [] && ms[i].item.LinkItem? ==>
      SafeLink([RESTORE_ROOT] + ms[i].path, ms[i].item.target)
  }

  /** Every directory above something that is there is there. */
  ghost predicate Closed(fs: Layout) {
    forall q, i | q in fs && 0 < i < |q| :: IsDir(fs, q[..i])
  }

  lemma MakeAllKeepsClosed(fs: Layout, path: Path)
    requires Closed(fs) && MakeAll(fs, path).Some?
    ensures Closed(MakeAll(fs, path).value)
    ensures forall i | 0 < i <= |path| :: IsDir(MakeAll(fs, path).value, path[..i])
  {
    var made := MakeAll(fs, path).value;
    forall i | 0 < i <= |path| ensures IsDir(made, path[..i]) { assert path[..i] in Directories(path); }
    forall q, i | q in made && 0 < i < |q| ensures IsDir(made, q[..i]) {
      if q in Directories(path) {
        var k :| 0 < k <= |path| && q == path[..k];
        assert q[..i] == path[..i];
      } else {
        assert IsDir(fs, q[..i]);
      }
    }
  }

  lemma PutKeepsClosed(fs: Layout, path: Path, item: Item)
    requires Closed(fs) && path != [] && path !in fs && (forall i | 0 < i < |path| :: IsDir(fs, path[..i]))
    ensures Closed(fs[path := item])
  {
    var put := fs[path := item];
    forall q, i | q in put && 0 < i < |q| ensures IsDir(put, q[..i]) {
      assert IsDir(fs, q[..i]);
    }
  }

  lemma ExtractKeepsClosed(fs: Layout, m: Member)
    requires Closed(fs) && m.path != [] && ExtractOne(fs, m).Some?
    ensures Closed(ExtractOne(fs, m).value)
  {
    var path, parent := m.path, m.path[..|m.path| - 1];
    hide MakeAll, Closed;
    assert forall i | 0 < i < |path| :: path[..i] == parent[..i];
    if m.item.DirItem? {
      MakeAllKeepsClosed(fs, path);
    } else if m.item.FileItem? {
      MakeAllKeepsClosed(fs, parent);
      PutKeepsClosed(MakeAll(fs, parent).value, path, m.item);
    } else {
      AboveIsDir(fs, parent);
      PutKeepsClosed(fs, path, m.item);
    }
  }

  lemma AboveIsDir(fs: Layout, path: Path)
    requires Closed(fs) && (path != [] ==> IsDir(fs, path))
    ensures forall i | 0 < i <= |path| :: IsDir(fs, path[..i])
  {
    assert path[..|path|] == path;
  }

  lemma AboveIsThere(fs: Layout, path: Path, q: Path)
    requires Closed(fs) && q in fs && path <= q && path != []
    ensures path in fs
  {
    assert q[..|path|] == path && q[..|q|] == q;
    if |path| < |q| { assert IsDir(fs, q[..|path|]); }
  }

  lemma NothingBelow(fs: Layout, path: Path)
    requires Closed(fs) && path != [] && path !in fs
    ensures Without(fs, path) == fs
  {
    forall q | q in fs ensures !(path <= q) {
      if path <= q { AboveIsThere(fs, path, q); }
    }
  }

  /** Restoring is extracting again, but for the check of links. */
  lemma {:induction false} RestoreIsExtract(fs: Layout, ms: seq<Member>)
    requires Inside(ms) && Closed(fs) && ExtractAll(fs, ms).Some?
    ensures RestoreAll(fs, ms) == if LinksRestorable(ms) then ExtractAll(fs, ms) else None
    decreases |ms|
  {
    hide MakeAll, SafeLink, Without;
    if ms != [] {
      var m, rest := ms[0], ms[1..];
      var next := ExtractOne(fs, m).value;
      assert forall i | 0 <= i < |rest| :: rest[i] == ms[i + 1];
      assert LinksRestorable(ms) <==> LinksRestorable([m]) && LinksRestorable(rest) by { LinksSplit(m, rest, ms); }
      ExtractKeepsClosed(fs, m);
      RestoreIsExtract(next, rest);
      if m.path !in fs { NothingBelow(fs, m.path); }
      FileIsNew(fs, m);
    }
  }

  lemma LinksSplit(m: Member, rest: seq<Member>, ms: seq<Member>)
    requires ms == [m] + rest
    ensures LinksRestorable(ms) <==> LinksRestorable([m]) && LinksRestorable(rest)
  {
    assert ms[0] == m && forall i | 0 <= i < |rest| :: rest[i] == ms[i + 1];
    assert [m][0] == m;
  }

  lemma FileIsNew(fs: Layout, m: Member)
    requires m.path != [] && ExtractOne(fs, m).Some?
    ensures !m.item.LinkItem? ==> RestoreOne(fs, m) == ExtractOne(fs, m)
  {
  }

  /** The archived part: refused exactly when a link is, else the whole tree. */
  lemma ArchivedExactly(archived: Node)
    requires Proper(archived)
    ensures var ms := Entries(archived, Everything);
      Inside(ms)
      && RestoreAll(map[], ms) == if LinksRestorable(ms) then Some(LayoutOf(archived, Everything)) else None
  {
    EntriesInside(archived, Everything);
    if archived.Dir? {
      var ms := WalkForest([], [], archived.entries, Everything);
      forall m <- ms ensures m.path != [] { }
      ExtractForest(map[], [], [], archived.entries, Everything);
      RestoreIsExtract(map[], ms);
      assert map[] + LayoutOf(archived, Everything) == LayoutOf(archived, Everything);
    }
  }

  // ----------------------------------------------------------- the kept part

  /** An entry of the running system that can be copied over the archived part. */
  predicate Fits(fs: Layout, m: Member)
    requires m.path != []
  {
    match m.item
    case DirItem => m.path in fs ==> fs[m.path].DirItem?
    case LinkItem(target) => SafeLink([Base(m.path)], target) && m.path !in fs
    case FileItem(_) => Passed(m) || (m.path in fs ==> !fs[m.path].DirItem?)
  }

  predicate AllFit(fs: Layout, ms: seq<Member>)
    requires Inside(ms)
  {
    forall i | 0 <= i < |ms| :: Fits(fs, ms[i])
  }

  function NotPassed(ms: seq<Member>): Layout {
    if ms == [] then map[]
    else
      var last := ms[|ms| - 1];
      if Passed(last) then NotPassed(ms[..|ms| - 1]) else NotPassed(ms[..|ms| - 1])[last.path := last.item]
  }

  lemma {:induction false} NotPassedExactly(ms: seq<Member>, q: Path)
    requires DistinctPaths(ms)
    ensures q in NotPassed(ms) <==> exists i | 0 <= i < |ms| :: ms[i].path == q && !Passed(ms[i])
    ensures forall i | 0 <= i < |ms| && !Passed(ms[i]) && ms[i].path == q ::
              q in NotPassed(ms) && NotPassed(ms)[q] == ms[i].item
  {
    hide Passed;
    if ms != [] {
      var before := ms[..|ms| - 1];
      NotPassedExactly(before, q);
      assert forall i | 0 <= i < |before| :: before[i] == ms[i];
    }
  }

  /** Directories that are all there need not be made. */
  lemma NothingToMake(fs: Layout, path: Path)
    requires forall i | 0 < i <= |path| :: IsDir(fs, path[..i])
    ensures MakeDirs(fs, path) == Replaced(fs)
  {
    assert fs + Directories(path) == fs;
  }

  lemma LastToMake(fs: Layout, path: Path)
    requires path != [] && forall i | 0 < i < |path| :: IsDir(fs, path[..i])
    ensures if path in fs && !fs[path].DirItem? then !MakeDirs(fs, path).Replaced?
            else MakeDirs(fs, path) == Replaced(fs[path := DirItem])
  {
    assert path[..|path|] == path;
    forall i | 0 < i <= |path| ensures i < |path| ==> IsDir(fs, path[..i]) { }
    if !(path in fs && !fs[path].DirItem?) {
      assert fs + Directories(path) == fs[path := DirItem];
    }
  }

  /** One more entry, on a layout where the directories above it are. */
  lemma CopyOneExactly(fs: Layout, m: Member)
    requires m.path != [] && forall i | 0 < i < |m.path| :: IsDir(fs, m.path[..i])
    ensures CopyOne(fs, m).Replaced? <==> Fits(fs, m)
    ensures Fits(fs, m) ==> CopyOne(fs, m) == Replaced(if Passed(m) then fs else fs[m.path := m.item])
  {
    hide MakeDirs, SafeLink, Passed;
    var parent := Parent(m.path);
    LastToMake(fs, m.path);
    PassedIsFile(m);
    forall i | 0 < i <= |parent| ensures IsDir(fs, parent[..i]) { assert parent[..i] == m.path[..i]; }
    NothingToMake(fs, parent);
  }

  lemma PassedIsFile(m: Member)
    ensures Passed(m) ==> m.item.FileItem?
  {
  }

  /** The copied part: built exactly when every entry fits on the archived part,
      and then laid over it. */
  lemma {:induction false} CopyAllExactly(fs: Layout, ms: seq<Member>)
    requires Inside(ms) && DistinctPaths(ms) && ParentsFirst(ms, 0)
    ensures CopyAll(fs, ms).Replaced? <==> AllFit(fs, ms)
    ensures AllFit(fs, ms) ==> CopyAll(fs, ms) == Replaced(fs + NotPassed(ms))
    decreases |ms|
  {
    hide CopyOne, Passed, Fits, NotPassed;
    NothingPassed();
    if ms == [] {
      assert fs + map[] == fs;
    } else {
      var before, last := ms[..|ms| - 1], ms[|ms| - 1];
      ParentsFirstBefore(ms);
      CopyAllExactly(fs, before);
      assert forall i | 0 <= i < |before| :: before[i] == ms[i];
      assert AllFit(fs, ms) <==> AllFit(fs, before) && Fits(fs, last);
      if AllFit(fs, before) {
        var copied := fs + NotPassed(before);
        DirsAreThere(fs, ms);
        CopyOneExactly(copied, last);
        NewIsUntouched(fs, ms);
        NotPassedLast(fs, ms);
      }
    }
  }

  lemma ThroughAtLast(fs: Layout, path: Path)
    requires path != [] && forall i | 0 < i < |path| :: IsDir(fs, path[..i])
    ensures MakeDirs(fs, path).Through? <==> path in fs && fs[path].LinkItem?
  {
    assert path[..|path|] == path;
    forall i | 0 < i <= |path| ensures i < |path| ==> IsDir(fs, path[..i]) { }
  }

  /** The copy meets a link exactly where a directory is to be kept. */
  predicate LinkUnderDir(fs: Layout, m: Member) {
    m.item.DirItem? && m.path in fs && fs[m.path].LinkItem?
  }

  /** Everything before entry `i` fits, and the copy of `i` meets a link. */
  ghost predicate MeetsLink(fs: Layout, ms: seq<Member>, i: nat) {
    i < |ms| && Inside(ms[..i]) && AllFit(fs, ms[..i]) && LinkUnderDir(fs, ms[i])
  }

  /** The copy ends at a link exactly when the first entry that does not fit is a
      directory that meets one. */
  lemma {:induction false} ThroughOnlyLinks(fs: Layout, ms: seq<Member>)
    requires Inside(ms) && DistinctPaths(ms) && ParentsFirst(ms, 0)
    ensures CopyAll(fs, ms).Through? <==> exists i: nat :: MeetsLink(fs, ms, i)
    decreases |ms|
  {
    hide MakeDirs, Passed, Fits, NotPassed, SafeLink;
    if ms != [] {
      var before, last := ms[..|ms| - 1], ms[|ms| - 1];
      ParentsFirstBefore(ms);
      ThroughOnlyLinks(fs, before);
      CopyAllExactly(fs, before);
      MeetsLater(fs, ms, before);
      if AllFit(fs, before) {
        var copied := fs + NotPassed(before);
        DirsAreThere(fs, ms);
        ThroughAtLast(copied, last.path);
        var parent := Parent(last.path);
        forall i | 0 < i <= |parent| ensures IsDir(copied, parent[..i]) { assert parent[..i] == last.path[..i]; }
        NothingToMake(copied, parent);
        LastIsNew(fs, ms);
      }
    }
  }

  lemma MeetsLater(fs: Layout, ms: seq<Member>, before: seq<Member>)
    requires Inside(ms) && ms != [] && before == ms[..|ms| - 1]
    ensures (exists i: nat :: MeetsLink(fs, ms, i))
       <==> (exists i: nat :: MeetsLink(fs, before, i)) || (AllFit(fs, before) && LinkUnderDir(fs, ms[|ms| - 1]))
    ensures AllFit(fs, before) ==> forall i: nat :: !MeetsLink(fs, before, i)
  {
    forall i: nat | i < |before| ensures MeetsLink(fs, ms, i) <==> MeetsLink(fs, before, i) {
      assert ms[..i] == before[..i];
    }
    assert AllFit(fs, before) && LinkUnderDir(fs, ms[|ms| - 1]) <==> MeetsLink(fs, ms, |ms| - 1);
  }

  lemma LastIsNew(fs: Layout, ms: seq<Member>)
    requires ms != [] && DistinctPaths(ms)
    ensures ms[|ms| - 1].path !in NotPassed(ms[..|ms| - 1])
  {
    NotPassedExactly(ms[..|ms| - 1], ms[|ms| - 1].path);
  }

  lemma NothingPassed()
    ensures NotPassed([]) == map[]
  {
  }

  lemma ParentsFirstBefore(ms: seq<Member>)
    requires ms != [] && ParentsFirst(ms, 0)
    ensures ParentsFirst(ms[..|ms| - 1], 0)
  {
    var before := ms[..|ms| - 1];
    forall i, n | 0 <= i < |before| && 0 < n < |before[i].path| ensures HasDir(before, i, before[i].path[..n]) {
      assert before[i] == ms[i] && HasDir(ms, i, ms[i].path[..n]);
      var j :| 0 <= j < i && ms[j] == Member(ms[i].path[..n], DirItem);
      assert before[j] == ms[j];
    }
  }

  lemma DirsAreThere(fs: Layout, ms: seq<Member>)
    requires ms != [] && DistinctPaths(ms) && ParentsFirst(ms, 0)
    ensures var before, path := ms[..|ms| - 1], ms[|ms| - 1].path;
      forall i | 0 < i < |path| :: IsDir(fs + NotPassed(before), path[..i])
  {
    var before, path := ms[..|ms| - 1], ms[|ms| - 1].path;
    forall i | 0 < i < |path| ensures IsDir(fs + NotPassed(before), path[..i]) {
      assert HasDir(ms, |ms| - 1, path[..i]);
      var j :| 0 <= j < |ms| - 1 && ms[j] == Member(path[..i], DirItem);
      assert before[j] == ms[j] && !Passed(ms[j]);
      NotPassedExactly(before, path[..i]);
    }
  }

  /** Where the last entry goes, the copy has not been yet. */
  lemma NewIsUntouched(fs: Layout, ms: seq<Member>)
    requires ms != [] && DistinctPaths(ms) && ms[|ms| - 1].path != []
    ensures var before, last := ms[..|ms| - 1], ms[|ms| - 1];
      Fits(fs + NotPassed(before), last) == Fits(fs, last)
  {
    var before, last := ms[..|ms| - 1], ms[|ms| - 1];
    NotPassedExactly(before, last.path);
    assert last.path !in NotPassed(before);
  }

  lemma NotPassedLast(fs: Layout, ms: seq<Member>)
    requires ms != []
    ensures var before, last := ms[..|ms| - 1], ms[|ms| - 1];
      fs + NotPassed(ms) == if Passed(last) then fs + NotPassed(before)
        else (fs + NotPassed(before))[last.path := last.item]
  {
  }

  lemma KeptIsNotPassed(current: Node, generated: Filter)
    requires Proper(current)
    ensures NotPassed(Entries(current, generated)) == KeptLayout(current, generated)
  {
    var ms, flat := Entries(current, generated), LayoutOf(current, generated);
    EntriesAreLayout(current, generated);
    hide Passed, Entries, LayoutOf;
    forall q
      ensures q in NotPassed(ms) <==> q in KeptLayout(current, generated)
      ensures q in NotPassed(ms) ==> NotPassed(ms)[q] == KeptLayout(current, generated)[q]
    {
      NotPassedExactly(ms, q);
      if q in flat {
        var i :| 0 <= i < |ms| && ms[i] == Member(q, flat[q]);
        assert forall k | 0 <= k < |ms| && ms[k].path == q :: ms[k] == ms[i];
      }
    }
  }

  // ------------------------------------------------------ the whole replacement

  /** A replacement is built exactly when all links of the archive are admitted
      again and every kept entry fits; it is the archived tree with the kept
      entries laid over it. */
  lemma BuildExactly(archived: Node, current: Node, generated: Filter)
    requires Proper(archived) && Proper(current)
    ensures var a, ms := LayoutOf(archived, Everything), Entries(current, generated);
      Inside(ms)
      && (Build(archived, current, generated).Replaced?
          <==> LinksRestorable(Entries(archived, Everything)) && AllFit(a, ms))
      && (Build(archived, current, generated).Replaced? ==>
          Build(archived, current, generated) == Replaced(a + KeptLayout(current, generated)))
  {
    EntriesInside(current, generated);
    EntriesAreLayout(current, generated);
    KeptIsNotPassed(current, generated);
    ArchivedExactly(archived);
    hide RestoreAll, CopyAll, LinksRestorable, Entries, LayoutOf, KeptLayout, NotPassed;
    CopyAllExactly(LayoutOf(archived, Everything), Entries(current, generated));
  }

  // ------------------------------------------------------------- the two roots

  /** The tree that an archive of the walked part is extracted to. */
  function Pruned(rel: Path, n: Node, takes: Filter): Node
    decreases n
  {
    if n.Dir? then Dir(PrunedForest(rel, n.entries, takes)) else n
  }

  function PrunedForest(rel: Path, f: Forest, takes: Filter): Forest
    decreases f
  {
    match f
    case Nil => Nil
    case Entry(name, n, rest) =>
      if takes(rel + [name], n.Dir?) then Entry(name, Pruned(rel + [name], n, takes), PrunedForest(rel, rest, takes))
      else PrunedForest(rel, rest, takes)
  }

  lemma {:induction false} PrunedIsStaged(path: Path, at: Path, rel: Path, n: Node, takes: Filter)
    ensures Flatten(path, at, Pruned(rel, n, takes), Everything) == Flatten(path, rel, n, takes)
    ensures Proper(n) ==> Proper(Pruned(rel, n, takes))
    decreases n, 1
  {
    if n.Dir? { PrunedForestIsStaged(path, at, rel, n.entries, takes); }
  }

  lemma {:induction false} PrunedForestIsStaged(path: Path, at: Path, rel: Path, f: Forest, takes: Filter)
    ensures FlattenForest(path, at, PrunedForest(rel, f, takes), Everything) == FlattenForest(path, rel, f, takes)
    ensures Names(PrunedForest(rel, f, takes)) <= Names(f)
    ensures ProperForest(f) ==> ProperForest(PrunedForest(rel, f, takes))
    decreases f, 0
  {
    if f.Entry? {
      PrunedIsStaged(path + [f.name], at + [f.name], rel + [f.name], f.node, takes);
      PrunedForestIsStaged(path, at, rel, f.rest, takes);
      assert map[] + FlattenForest(path, rel, f.rest, takes) == FlattenForest(path, rel, f.rest, takes);
    }
  }

  /** All links of the archived part are admitted again. */
  predicate ArchivedLinksPass(archived: Layout) {
    forall q <- archived | q != [] && archived[q].LinkItem? :: SafeLink([RESTORE_ROOT] + q, archived[q].target)
  }

  /** All links that are to be kept are admitted, each under its own name. */
  predicate KeptLinksPass(kept: Layout) {
    forall q <- kept | q != [] && kept[q].LinkItem? :: SafeLink([Base(q)], kept[q].target)
  }

  lemma LinksByPath(ms: seq<Member>, flat: Layout)
    requires SameAs(ms, flat)
    ensures LinksRestorable(ms) <==> ArchivedLinksPass(flat)
  {
    hide SafeLink;
    if LinksRestorable(ms) {
      forall q <- flat | q != [] && flat[q].LinkItem? ensures SafeLink([RESTORE_ROOT] + q, flat[q].target) {
        assert Member(q, flat[q]) in ms;
      }
    }
  }

  /** What a walk selects is of a kind that its filter takes. */
  lemma LayoutWasTaken(n: Node, takes: Filter, q: Path)
    requires Proper(n) && q in LayoutOf(n, takes)
    ensures q != [] && takes(q, LayoutOf(n, takes)[q].DirItem?)
  {
    FlattenForestIsBelow([], [], n.entries, takes);
    FlattenForestSelects([], [], n.entries, takes, q);
    assert [] + q == q;
    SelectedWasTaken([], Dir(n.entries), takes, q);
  }

  /** Over an archive of another kind of paths, an entry fits exactly when its
      path is free. */
  lemma FitsExactly(archived: Layout, ms: seq<Member>, flat: Layout, kept: Layout)
    requires Inside(ms) && SameAs(ms, flat)
    requires kept == map q | q in flat && !Passed(Member(q, flat[q])) :: flat[q]
    requires forall q | q in archived && q in flat :: archived[q].DirItem? != flat[q].DirItem?
    ensures AllFit(archived, ms) <==> KeptLinksPass(kept) && archived.Keys !! kept.Keys
  {
    hide SafeLink;
    if AllFit(archived, ms) {
      forall q <- kept ensures q !in archived && (kept[q].LinkItem? ==> SafeLink([Base(q)], kept[q].target)) {
        var i :| 0 <= i < |ms| && ms[i] == Member(q, flat[q]);
        assert Fits(archived, ms[i]);
      }
    }
    if KeptLinksPass(kept) && archived.Keys !! kept.Keys {
      forall i | 0 <= i < |ms| ensures Fits(archived, ms[i]) {
        assert ms[i] == Member(ms[i].path, flat[ms[i].path]);
        if !Passed(ms[i]) { assert ms[i].path in kept; }
      }
    }
  }

  /** A root that was backed up with `takes` and is restored over a running one:
      it is replaced exactly when every archived link and every kept link passes
      and no path is in both parts; and then it is their disjoint union. */
  lemma ReplacementExactly(root: Node, current: Node, takes: Filter, generated: Filter)
    requires Proper(root) && Proper(current) && Exclusive(takes, generated)
    ensures var archived, kept := LayoutOf(root, takes), KeptLayout(current, generated);
      var built := Build(Pruned([], root, takes), current, generated);
      && (built.Replaced? <==> ArchivedLinksPass(archived) && KeptLinksPass(kept) && archived.Keys !! kept.Keys)
      && (built.Replaced? ==> built == Replaced(archived + kept))
      && (built.Through? ==> exists q <- archived :: archived[q].LinkItem? && q in kept && kept[q].DirItem?)
  {
    var staged := Pruned([], root, takes);
    var archived, flat := LayoutOf(root, takes), LayoutOf(current, generated);
    PrunedIsStaged([], [], [], root, takes);
    if root.Dir? { PrunedForestIsStaged([], [], [], root.entries, takes); }
    assert LayoutOf(staged, Everything) == archived;
    EntriesAreLayout(staged, Everything);
    LinksByPath(Entries(staged, Everything), archived);
    EntriesAreLayout(current, generated);
    BuildExactly(staged, current, generated);
    forall q | q in archived && q in flat ensures archived[q].DirItem? != flat[q].DirItem? {
      LayoutWasTaken(root, takes, q);
      LayoutWasTaken(current, generated, q);
    }
    var ms := Entries(current, generated);
    ArchivedExactly(staged);
    ThroughOnlyLinks(archived, ms);
    hide Entries, Pruned, LayoutOf, RestoreAll, CopyAll;
    FitsExactly(archived, ms, flat, KeptLayout(current, generated));
    if Build(staged, current, generated).Through? {
      var i: nat :| MeetsLink(archived, ms, i);
      assert ms[i].path in KeptLayout(current, generated);
    }
  }

  /** Path by path, what is kept. */
  lemma KeptByPath(current: Node, generated: Filter, below: Path)
    requires Proper(current) && below != []
    ensures var kept := KeptLayout(current, generated); var found := Kept(current, generated, below);
      (below in kept <==> found.Some?) && (below in kept ==> Some(kept[below]) == ItemOf(found.value))
  {
    if current.Dir? {
      FlattenForestSelects([], [], current.entries, generated, below);
      assert [] + below == below;
    }
  }
}
