/** operator/backup.go: CreateRollback and RestoreRollback, a snapshot of named
    components of the runtime tree and its restoration. */
module BackupSnapshot {
  import opened Wrappers
  import opened Environment
  import opened BackupTree
  import opened BackupArchive
  import opened BackupExtract
  import opened BackupRules

  predicate Named(cs: seq<Path>) {
    forall i | 0 <= i < |cs| :: cs[i] != []
  }

  /** No component lies inside another, and none is empty. */
  predicate PrefixFree(cs: seq<Path>) {
    && Named(cs)
    && forall i, j | 0 <= i < |cs| && 0 <= j < |cs| && i != j :: !(cs[i] <= cs[j])
  }

  /** What was found at each component: nothing, a file or a directory. */
  predicate Ordinary(found: seq<Option<Node>>) {
    forall i | 0 <= i < |found| && found[i].Some? :: Proper(found[i].value)
      && (found[i].value.File? || found[i].value.Dir?)
  }

  function Captured(c: Path, f: Option<Node>): Layout {
    if f.Some? then Flatten(c, [], f.value, Everything) else map[]
  }

  /** The members of the first `k` components. */
  function SnapshotOf(cs: seq<Path>, found: seq<Option<Node>>, k: nat): seq<Member>
    requires k <= |cs| == |found|
  {
    if k == 0 then []
    else
      var earlier := SnapshotOf(cs, found, k - 1);
      if found[k - 1].None? then earlier else earlier + Walk(cs[k - 1], [], found[k - 1].value, Everything)
  }

  /** CreateRollback: the members of all components that exist, if there are
      components, all of their names are safe, those of absent ones too, and the
      reader accepts the archive. */
  method CreateRollback(cs: seq<Path>, found: seq<Option<Node>>) returns (r: Option<seq<Member>>)
    requires |cs| == |found|
    ensures var all := SnapshotOf(cs, found, |cs|);
      r == if cs != [] && (forall c <- cs :: SafeMember(c)) && Readable(cs, all) then Some(all) else None
  {
    if |cs| == 0 { return None; }
    var members: seq<Member> := [];
    for i := 0 to |cs|
      invariant members == SnapshotOf(cs, found, i)
      invariant forall j | 0 <= j < i :: SafeMember(cs[j])
    {
      if !SafeMember(cs[i]) { return None; }
      if found[i].None? { continue; }
      members := members + Walk(cs[i], [], found[i].value, Everything);
    }
    var ok := Inspect(cs, members);
    r := if ok then Some(members) else None;
  }

  // ------------------------------------------------------------- restoration

  function Outside(fs: Layout, c: Path): Layout {
    map q | q in fs && !(c <= q) :: fs[q]
  }

  function Inside(fs: Layout, c: Path): Layout {
    map q | q in fs && c <= q :: fs[q]
  }

  /** Followed: a link leads to a component, and the code works on where the link
      leads; what that leaves is not part of this model. */
  datatype Restoring = RestoredTo(fs: Layout) | Blocked | Followed

  /** A link is on the way to `c`. */
  predicate LinkAbove(fs: Layout, c: Path) {
    exists i | 0 < i < |c| :: c[..i] in fs && fs[c[..i]].LinkItem?
  }

  /** One component: what is there moves aside, and what was staged moves in. */
  function RestoreOne(fs: Layout, staging: Layout, c: Path): Restoring
    requires c != []
  {
    if LinkAbove(fs, c) then Followed
    else if c !in staging then RestoredTo(Outside(fs, c))
    else
      var made := MakeAll(Outside(fs, c), c[..|c| - 1]);
      if made.None? then Blocked else RestoredTo(made.value + Inside(staging, c))
  }

  function RestoreAll(fs: Layout, staging: Layout, cs: seq<Path>, k: nat): Restoring
    requires k <= |cs| && Named(cs)
    decreases k
  {
    if k == 0 then RestoredTo(fs)
    else
      var done := RestoreAll(fs, staging, cs, k - 1);
      if done.RestoredTo? then RestoreOne(done.fs, staging, cs[k - 1]) else done
  }

  datatype RollbackEnd = RolledBack | NotRolledBack | ThroughLink

  class Runtime {
    const calm: bool
    var tree: Layout

    constructor (tree: Layout, calm: bool)
      ensures this.tree == tree && this.calm == calm
    {
      this.tree, this.calm := tree, calm;
    }

    /** RestoreRollback: check, extract into a staging directory, then move the
        components in one by one, each of which may fail. */
    method RestoreRollback(cs: seq<Path>, ms: seq<Member>) returns (r: RollbackEnd)
      requires Named(cs) && forall m <- ms :: m.path != []
      modifies this
      ensures var staging := if Readable(cs, ms) then ExtractAll(map[], ms) else None;
        && (!r.NotRolledBack? ==> staging.Some?)
        && (staging.Some? ==>
              var restored := RestoreAll(old(tree), staging.value, cs, |cs|);
              && (r.RolledBack? ==> restored == RestoredTo(tree))
              && (r.ThroughLink? ==> restored.Followed?)
              && (calm ==> (r.NotRolledBack? <==> restored.Blocked?)))
    {
      var extracted := Extract(cs, ms);
      if extracted.None? { return NotRolledBack; }
      var staging := extracted.value;
      for i := 0 to |cs|
        invariant RestoreAll(old(tree), staging, cs, i) == RestoredTo(tree)
      {
        var c := cs[i];
        var moves := Chance(calm);
        if !moves.Done? { return NotRolledBack; }
        StopStays(old(tree), staging, cs, i + 1);
        if LinkAbove(tree, c) { return ThroughLink; }
        tree := Outside(tree, c);
        if c in staging {
          var made := MakeAll(tree, c[..|c| - 1]);
          if made.None? { return NotRolledBack; }
          tree := made.value + Inside(staging, c);
        }
      }
      return RolledBack;
    }
  }

  lemma {:induction false} StopStays(fs: Layout, staging: Layout, cs: seq<Path>, k: nat)
    requires k <= |cs| && Named(cs)
    ensures var r := RestoreAll(fs, staging, cs, k); !r.RestoredTo? ==> RestoreAll(fs, staging, cs, |cs|) == r
    decreases |cs| - k
  {
    if k < |cs| { StopStays(fs, staging, cs, k + 1); }
  }

  // ------------------------------------------------- what both folds compute

  /** The directories above a component. */
  function Above(c: Path): Layout
    requires c != []
  {
    Directories(c[..|c| - 1])
  }

  lemma InAbove(c: Path, q: Path)
    requires c != []
    ensures q in Above(c) <==> q != [] && q <= c && q != c
  {
    var parent := c[..|c| - 1];
    if q != [] && q <= c && q != c {
      assert q == parent[..|q|];
    }
  }

  /** The tree after one component has been put in place. */
  function Placed(fs: Layout, c: Path, f: Option<Node>): Layout
    requires c != []
  {
    if f.Some? then Outside(fs, c) + Above(c) + Captured(c, f) else Outside(fs, c)
  }

  function Folded(fs: Layout, cs: seq<Path>, found: seq<Option<Node>>, k: nat): Layout
    requires k <= |cs| == |found| && Named(cs)
  {
    if k == 0 then fs else Placed(Folded(fs, cs, found, k - 1), cs[k - 1], found[k - 1])
  }

  ghost predicate Covered(cs: seq<Path>, k: nat, q: Path)
    requires k <= |cs|
  {
    exists i | 0 <= i < k :: cs[i] <= q
  }

  /** `q` lies above a component that was captured. */
  ghost predicate LeadsIn(cs: seq<Path>, found: seq<Option<Node>>, k: nat, q: Path)
    requires k <= |cs| == |found|
  {
    q != [] && exists i | 0 <= i < k :: found[i].Some? && q <= cs[i] && q != cs[i]
  }

  ghost predicate SameAt(a: Layout, b: Layout, q: Path) {
    (q in a <==> q in b) && (q in a ==> a[q] == b[q])
  }

  /** All components are as captured, and outside of them the tree
      differs from `fs` at most by directories that lead to one of them. */
  ghost predicate InPlace(r: Layout, fs: Layout, cs: seq<Path>, found: seq<Option<Node>>)
    requires |cs| == |found|
  {
    && (forall i, q | 0 <= i < |cs| && cs[i] <= q :: SameAt(r, Captured(cs[i], found[i]), q))
    && forall q | !Covered(cs, |cs|, q) ::
         SameAt(r, fs, q) || (q !in fs && q in r && r[q].DirItem? && LeadsIn(cs, found, |cs|, q))
  }

  /** Nothing but directories leads to the captured components. */
  ghost predicate Open(fs: Layout, cs: seq<Path>, found: seq<Option<Node>>, k: nat)
    requires k <= |cs| == |found|
  {
    forall q <- fs | LeadsIn(cs, found, k, q) :: fs[q].DirItem?
  }

  /** `q` lies above a component, captured or not. */
  ghost predicate Leads(cs: seq<Path>, k: nat, q: Path)
    requires k <= |cs|
  {
    q != [] && exists i | 0 <= i < k :: q <= cs[i] && q != cs[i]
  }

  /** No link leads to a component. */
  ghost predicate NoLinks(fs: Layout, cs: seq<Path>, k: nat)
    requires k <= |cs|
  {
    forall q <- fs | Leads(cs, k, q) :: !fs[q].LinkItem?
  }

  lemma {:induction false} Comparable(a: Path, b: Path, q: Path)
    ensures a <= q && b <= q ==> a <= b || b <= a
    ensures a <= q && q <= b ==> a <= b
  {
  }

  lemma Apart(cs: seq<Path>, i: nat, j: nat, q: Path)
    requires PrefixFree(cs) && i < |cs| && j < |cs| && i != j && cs[i] <= q
    ensures !(cs[j] <= q) && !(q <= cs[j])
  {
    Comparable(cs[i], cs[j], q);
  }

  /** A path outside the new component. */
  lemma PlacedOutside(fs: Layout, c: Path, f: Option<Node>, q: Path)
    requires c != [] && !(c <= q)
    ensures var r := Placed(fs, c, f);
      SameAt(r, fs, q) || (f.Some? && q != [] && q <= c && q != c && q in r && r[q].DirItem?)
  {
    InAbove(c, q);
    if f.Some? { FlattenIsBelow(c, [], f.value, Everything); }
  }

  lemma PlacedInside(fs: Layout, c: Path, f: Option<Node>, q: Path)
    requires c != [] && c <= q
    ensures SameAt(Placed(fs, c, f), Captured(c, f), q)
  {
    InAbove(c, q);
  }

  lemma {:induction false} FoldedInside(fs: Layout, cs: seq<Path>, found: seq<Option<Node>>, k: nat, i: nat, q: Path)
    requires i < k <= |cs| == |found| && PrefixFree(cs) && cs[i] <= q
    ensures SameAt(Folded(fs, cs, found, k), Captured(cs[i], found[i]), q)
    decreases k
  {
    var r, c, f := Folded(fs, cs, found, k - 1), cs[k - 1], found[k - 1];
    if i == k - 1 {
      PlacedInside(r, c, f, q);
    } else {
      FoldedInside(fs, cs, found, k - 1, i, q);
      Apart(cs, i, k - 1, q);
      PlacedOutside(r, c, f, q);
    }
  }

  /** What the fold leaves at a path outside the components. */
  ghost predicate Kept(r: Layout, fs: Layout, leads: bool, q: Path) {
    SameAt(r, fs, q) || (leads && q in r && r[q].DirItem?)
  }

  lemma {:induction false} FoldedOutside(fs: Layout, cs: seq<Path>, found: seq<Option<Node>>, k: nat, q: Path)
    requires k <= |cs| == |found| && PrefixFree(cs) && !Covered(cs, k, q)
    ensures Kept(Folded(fs, cs, found, k), fs, LeadsIn(cs, found, k, q), q)
    decreases k
  {
    if k > 0 {
      var r, c, f := Folded(fs, cs, found, k - 1), cs[k - 1], found[k - 1];
      assert !Covered(cs, k - 1, q) && !(c <= q);
      FoldedOutside(fs, cs, found, k - 1, q);
      PlacedOutside(r, c, f, q);
      assert LeadsIn(cs, found, k - 1, q) ==> LeadsIn(cs, found, k, q);
      assert f.Some? && q != [] && q <= c && q != c ==> LeadsIn(cs, found, k, q);
    }
  }

  lemma FoldedInPlace(fs: Layout, cs: seq<Path>, found: seq<Option<Node>>)
    requires |cs| == |found| && PrefixFree(cs) && Open(fs, cs, found, |cs|)
    ensures InPlace(Folded(fs, cs, found, |cs|), fs, cs, found)
  {
    var r := Folded(fs, cs, found, |cs|);
    forall i, q | 0 <= i < |cs| && cs[i] <= q ensures SameAt(r, Captured(cs[i], found[i]), q) {
      FoldedInside(fs, cs, found, |cs|, i, q);
    }
    forall q | !Covered(cs, |cs|, q)
      ensures SameAt(r, fs, q) || (q !in fs && q in r && r[q].DirItem? && LeadsIn(cs, found, |cs|, q))
    {
      FoldedOutside(fs, cs, found, |cs|, q);
      assert q in fs && LeadsIn(cs, found, |cs|, q) ==> fs[q] == DirItem;
    }
  }

  // ---------------------------------------------------------- the extraction

  /** Nothing but directories lies above `c`. */
  ghost predicate OpenAt(fs: Layout, c: Path) {
    forall q <- fs | q != [] && q <= c && q != c :: fs[q].DirItem?
  }

  lemma MakeAllAbove(fs: Layout, c: Path)
    requires c != []
    ensures MakeAll(fs, c[..|c| - 1]) == if OpenAt(fs, c) then Some(fs + Above(c)) else None
  {
    var parent := c[..|c| - 1];
    if OpenAt(fs, c) {
      forall i | 0 < i <= |parent| ensures parent[..i] in fs ==> fs[parent[..i]].DirItem? {
        assert parent[..i] <= c;
      }
    } else {
      var q :| q in fs && q != [] && q <= c && q != c && !fs[q].DirItem?;
      assert q == parent[..|q|];
    }
  }

  lemma ExtractFile(fs: Layout, c: Path, data: string)
    requires c != [] && OpenAt(fs, c) && Free(fs, c)
    ensures ExtractAll(fs, [Member(c, FileItem(data))]) == Some(fs + Above(c) + map[c := FileItem(data)])
  {
    MakeAllAbove(fs, c);
    InAbove(c, c);
    AddOne(fs + Above(c), c, FileItem(data));
    assert [Member(c, FileItem(data))][1..] == [];
  }

  lemma MakeAllHere(fs: Layout, c: Path)
    requires c != [] && OpenAt(fs, c) && Free(fs, c)
    ensures MakeAll(fs, c) == Some(fs + Above(c) + map[c := DirItem])
  {
    forall i | 0 < i <= |c| ensures c[..i] in fs ==> fs[c[..i]].DirItem? { assert c[..i] <= c; }
    forall q ensures q in Directories(c) <==> q in Above(c) || q == c {
      InAbove(c, q);
      if q in Above(c) || q == c { assert q == c[..|q|]; }
    }
    assert fs + Directories(c) == fs + Above(c) + map[c := DirItem];
  }

  lemma AfterMaking(fs: Layout, c: Path, entries: Forest)
    requires c != [] && OpenAt(fs, c) && Free(fs, c)
    ensures RoomFor(fs + Above(c) + map[c := DirItem], c, entries)
  {
    var made := fs + Above(c) + map[c := DirItem];
    forall i | 0 < i <= |c| ensures c[..i] in made && made[c[..i]].DirItem? {
      InAbove(c, c[..i]);
      assert c[..|c|] == c;
    }
    forall q <- made ensures c <= q ==> |q| <= |c| { InAbove(c, q); }
  }

  /** Extracting a component also creates the directories above it. */
  lemma ExtractComponent(fs: Layout, c: Path, n: Node)
    requires c != [] && Proper(n) && (n.File? || n.Dir?) && OpenAt(fs, c) && Free(fs, c)
    ensures forall m <- Walk(c, [], n, Everything) :: m.path != []
    ensures ExtractAll(fs, Walk(c, [], n, Everything)) == Some(Placed(fs, c, Some(n)))
  {
    WalkIsBelow(c, [], n, Everything);
    assert Outside(fs, c) == fs;
    match n {
      case File(data) =>
        ExtractFile(fs, c, data);
      case Dir(entries) =>
        var first, inner := [Member(c, DirItem)], WalkForest(c, [], entries, Everything);
        MakeAllHere(fs, c);
        AfterMaking(fs, c, entries);
        assert (first + inner)[1..] == inner;
        forall m <- inner ensures m.path != [] { assert m in first + inner; }
        ExtractForest(fs + Above(c) + map[c := DirItem], c, [], entries, Everything);
        var all := Walk(c, [], n, Everything);
        assert all == first + inner && all[0] == Member(c, DirItem) && all[1..] == inner;
        LayoutsJoin(fs + Above(c), map[c := DirItem], FlattenForest(c, [], entries, Everything));
    }
  }

  /** Before the next component is put in place: what is at its place, or leads
      to it, is what was there at the start, or a directory. */
  lemma NextPlace(fs: Layout, cs: seq<Path>, found: seq<Option<Node>>, k: nat, q: Path)
    requires k < |cs| == |found| && PrefixFree(cs) && (cs[k] <= q || q <= cs[k])
    ensures Kept(Folded(fs, cs, found, k), fs, !(cs[k] <= q) && LeadsIn(cs, found, k, q), q)
  {
    forall i | 0 <= i < k ensures !(cs[i] <= q) && (cs[k] <= q ==> !(q <= cs[i])) {
      if cs[i] <= q { Apart(cs, i, k, q); }
      if cs[k] <= q { Apart(cs, k, i, q); }
    }
    FoldedOutside(fs, cs, found, k, q);
  }

  /** The place of the next component is free, and only directories lead to it. */
  lemma PlaceIsFree(cs: seq<Path>, found: seq<Option<Node>>, k: nat)
    requires k < |cs| == |found| && PrefixFree(cs)
    ensures var r := Folded(map[], cs, found, k); Free(r, cs[k]) && OpenAt(r, cs[k]) && Placed(r, cs[k], None) == r
  {
    var r, c := Folded(map[], cs, found, k), cs[k];
    forall q | c <= q ensures q !in r { NextPlace(map[], cs, found, k, q); }
    forall q <- r | q != [] && q <= c && q != c ensures r[q].DirItem? { NextPlace(map[], cs, found, k, q); }
  }

  /** The result of extraction into an empty directory. */
  function Rebuilt(ms: seq<Member>): Option<Layout> {
    if forall m <- ms :: m.path != [] then ExtractAll(map[], ms) else None
  }

  lemma RebuiltNothing()
    ensures Rebuilt([]) == Some(map[])
  {
  }

  lemma ExtractNext(r: Layout, c: Path, n: Node, ms: seq<Member>)
    requires c != [] && Proper(n) && (n.File? || n.Dir?)
    ensures Free(r, c) && OpenAt(r, c) && Rebuilt(ms) == Some(r)
      ==> Rebuilt(ms + Walk(c, [], n, Everything)) == Some(Placed(r, c, Some(n)))
  {
    if Free(r, c) && OpenAt(r, c) && Rebuilt(ms) == Some(r) {
      ExtractComponent(r, c, n);
      ExtractAppends(map[], ms, Walk(c, [], n, Everything));
    }
  }

  /** Extraction into an empty directory puts the captured components in place. */
  lemma {:induction false} ExtractSnapshot(cs: seq<Path>, found: seq<Option<Node>>, k: nat)
    requires k <= |cs| == |found| && PrefixFree(cs) && Ordinary(found)
    ensures Rebuilt(SnapshotOf(cs, found, k)) == Some(Folded(map[], cs, found, k))
  {
    hide Rebuilt, Placed;
    if k == 0 {
      RebuiltNothing();
    } else {
      var c, f := cs[k - 1], found[k - 1];
      var r, ms := Folded(map[], cs, found, k - 1), SnapshotOf(cs, found, k - 1);
      ExtractSnapshot(cs, found, k - 1);
      PlaceIsFree(cs, found, k - 1);
      if f.Some? {
        ExtractNext(r, c, f.value, ms);
      }
    }
  }

  // --------------------------------------------------------- the restoration

  lemma StagedInside(cs: seq<Path>, found: seq<Option<Node>>, i: nat)
    requires i < |cs| == |found| && PrefixFree(cs) && Ordinary(found)
    ensures var staging := Folded(map[], cs, found, |cs|);
      && Inside(staging, cs[i]) == Captured(cs[i], found[i])
      && (cs[i] in staging <==> found[i].Some?)
  {
    var c, f := cs[i], found[i];
    var staging := Folded(map[], cs, found, |cs|);
    var here, captured := Inside(staging, c), Captured(c, f);
    if f.Some? { FlattenIsBelow(c, [], f.value, Everything); }
    forall q ensures (q in here <==> q in captured) && (q in here ==> here[q] == captured[q]) {
      if c <= q { FoldedInside(map[], cs, found, |cs|, i, q); }
    }
    assert here == captured;
    FoldedInside(map[], cs, found, |cs|, i, c);
  }

  lemma RestoreNext(r: Layout, cs: seq<Path>, found: seq<Option<Node>>, k: nat)
    requires k < |cs| == |found| && PrefixFree(cs) && Ordinary(found)
    ensures RestoreOne(r, Folded(map[], cs, found, |cs|), cs[k])
         == if LinkAbove(r, cs[k]) then Followed
            else if found[k].None? || OpenAt(Outside(r, cs[k]), cs[k]) then RestoredTo(Placed(r, cs[k], found[k]))
            else Blocked
  {
    StagedInside(cs, found, k);
    MakeAllAbove(Outside(r, cs[k]), cs[k]);
  }

  /** Whether the next component can be moved in depends on the tree before the
      restoration only. */
  lemma OpenNext(fs: Layout, cs: seq<Path>, found: seq<Option<Node>>, k: nat)
    requires k < |cs| == |found| && PrefixFree(cs)
    ensures Open(fs, cs, found, k + 1)
      <==> Open(fs, cs, found, k) && (found[k].None? || OpenAt(Outside(Folded(fs, cs, found, k), cs[k]), cs[k]))
  {
    var r, c := Folded(fs, cs, found, k), cs[k];
    assert forall q | LeadsIn(cs, found, k, q) :: LeadsIn(cs, found, k + 1, q);
    if Open(fs, cs, found, k) && (found[k].None? || OpenAt(Outside(r, c), c)) {
      forall q <- fs | LeadsIn(cs, found, k + 1, q) ensures fs[q].DirItem? {
        if !LeadsIn(cs, found, k, q) {
          NextPlace(fs, cs, found, k, q);
          assert q in Outside(r, c);
        }
      }
    }
    if found[k].Some? && Open(fs, cs, found, k + 1) {
      forall q <- Outside(r, c) | q != [] && q <= c && q != c ensures r[q].DirItem? {
        assert LeadsIn(cs, found, k + 1, q);
        NextPlace(fs, cs, found, k, q);
      }
    }
  }

  /** Whether a link leads to the next component depends on the tree before the
      restoration only. */
  lemma LinkNext(fs: Layout, cs: seq<Path>, found: seq<Option<Node>>, k: nat)
    requires k < |cs| == |found| && PrefixFree(cs) && Open(fs, cs, found, k)
    ensures NoLinks(fs, cs, k + 1) <==> NoLinks(fs, cs, k) && !LinkAbove(Folded(fs, cs, found, k), cs[k])
  {
    var r, c := Folded(fs, cs, found, k), cs[k];
    forall q | q != [] && q <= c && q != c
      ensures (q in fs && fs[q].LinkItem?) <==> (q in r && r[q].LinkItem?)
      ensures Leads(cs, k + 1, q) && q == c[..|q|]
    {
      NextPlace(fs, cs, found, k, q);
    }
    assert forall q | Leads(cs, k, q) :: Leads(cs, k + 1, q);
    forall i | 0 < i < |c| ensures c[..i] <= c && c[..i] != c { }
  }

  /** A file, not a link, leads to a component that was captured. */
  ghost predicate FileLeads(fs: Layout, cs: seq<Path>, found: seq<Option<Node>>, k: nat)
    requires k <= |cs| == |found|
  {
    exists q <- fs :: LeadsIn(cs, found, k, q) && fs[q].FileItem?
  }

  lemma FileIsNext(fs: Layout, cs: seq<Path>, found: seq<Option<Node>>, k: nat)
    requires k < |cs| == |found| && PrefixFree(cs) && found[k].Some?
    requires var r := Folded(fs, cs, found, k); !LinkAbove(r, cs[k]) && !OpenAt(Outside(r, cs[k]), cs[k])
    ensures FileLeads(fs, cs, found, k + 1)
  {
    var r, c := Folded(fs, cs, found, k), cs[k];
    var q :| q in Outside(r, c) && q != [] && q <= c && q != c && !r[q].DirItem?;
    assert q == c[..|q|] && r[q].FileItem?;
    NextPlace(fs, cs, found, k, q);
    assert LeadsIn(cs, found, k + 1, q);
  }

  /** A restoration succeeds exactly when nothing but directories leads to the
      captured components and no link to any; it is blocked only where a file leads
      to a captured one, and follows a link only where one leads to a component. */
  lemma {:induction false} RestoreSnapshot(fs: Layout, staging: Layout, cs: seq<Path>, found: seq<Option<Node>>, k: nat)
    requires k <= |cs| == |found| && PrefixFree(cs) && Ordinary(found)
    requires staging == Folded(map[], cs, found, |cs|)
    ensures var r := RestoreAll(fs, staging, cs, k);
      && (r.RestoredTo? <==> Open(fs, cs, found, k) && NoLinks(fs, cs, k))
      && (r.RestoredTo? ==> r.fs == Folded(fs, cs, found, k))
      && (r.Blocked? ==> FileLeads(fs, cs, found, k))
      && (r.Followed? ==> !NoLinks(fs, cs, k))
  {
    hide RestoreOne, Placed, OpenAt, LinkAbove;
    if k > 0 {
      var r := RestoreAll(fs, staging, cs, k - 1);
      RestoreSnapshot(fs, staging, cs, found, k - 1);
      OpenNext(fs, cs, found, k - 1);
      NoLinksBefore(fs, cs, found, k);
      if r.RestoredTo? {
        LinkNext(fs, cs, found, k - 1);
        RestoreNext(r.fs, cs, found, k - 1);
        if RestoreAll(fs, staging, cs, k).Blocked? { FileIsNext(fs, cs, found, k - 1); }
      }
    }
  }

  lemma NoLinksBefore(fs: Layout, cs: seq<Path>, found: seq<Option<Node>>, k: nat)
    requires 0 < k <= |cs| == |found|
    ensures NoLinks(fs, cs, k) ==> NoLinks(fs, cs, k - 1)
    ensures FileLeads(fs, cs, found, k - 1) ==> FileLeads(fs, cs, found, k)
  {
    assert forall q | Leads(cs, k - 1, q) :: Leads(cs, k, q);
    assert forall q | LeadsIn(cs, found, k - 1, q) :: LeadsIn(cs, found, k, q);
  }

  /** A snapshot followed by any changes and a restoration: the restoration
      succeeds exactly when nothing but directories leads to the captured
      components and no link to any; and then every component is as captured, those
      absent at the time are gone, and everything else is as it was, apart from
      directories made to lead to a component.  Otherwise a file leads to a captured
      component, or a link leads to one and is followed. */
  lemma SnapshotRoundTrip(cs: seq<Path>, found: seq<Option<Node>>, later: Layout)
    requires |cs| == |found| && PrefixFree(cs) && Ordinary(found)
    ensures var ms := SnapshotOf(cs, found, |cs|);
      && (forall m <- ms :: m.path != [])
      && var staging := ExtractAll(map[], ms);
      && staging.Some?
      && var restored := RestoreAll(later, staging.value, cs, |cs|);
      && (restored.RestoredTo? <==> Open(later, cs, found, |cs|) && NoLinks(later, cs, |cs|))
      && (restored.RestoredTo? ==> InPlace(restored.fs, later, cs, found))
      && (restored.Blocked? ==> FileLeads(later, cs, found, |cs|))
      && (restored.Followed? ==> !NoLinks(later, cs, |cs|))
  {
    ExtractSnapshot(cs, found, |cs|);
    RestoreSnapshot(later, Folded(map[], cs, found, |cs|), cs, found, |cs|);
    if Open(later, cs, found, |cs|) {
      FoldedInPlace(later, cs, found);
    }
  }

  /** A file below a link to a directory, as a component: its restoration follows
      the link. */
  lemma LinkedComponentIsFollowed(staging: Layout)
    ensures RestoreAll(
      map[["w"] := LinkItem(Target(false, ["d"])), ["d"] := DirItem], staging, [["w", "a"]], 1).Followed?
  {
    assert ["w", "a"][..1] == ["w"];
  }
}
