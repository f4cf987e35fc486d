/** operator/backup.go: a durable restore as a whole.  The replacements of both
    roots are built, and then exchanged with the running trees. */
module BackupRestore {
  import opened Wrappers
  import opened BackupTree
  import opened BackupArchive
  import opened BackupRules
  import opened BackupReplacement
  import opened RestoreSwap

  /** What is at a root: a tree of the running system, or a replacement. */
  datatype Content = Running(node: Node) | Restored(fs: Layout)

  /** Followed: a link was followed while a replacement was built; what that
      leaves is not part of this model. */
  datatype Result = NotBuilt | Followed | Ended(outcome: Outcome)

  const DATA_ROOT: Root := "hermes"
  const META_ROOT: Root := "meta"

  /** restoreDurableTreeFiltered, entry by entry. */
  method RestoreTree(archived: Node) returns (r: Option<Layout>)
    requires Inside(Entries(archived, Everything))
    ensures r == RestoreAll(map[], Entries(archived, Everything))
  {
    hide RestoreOne, Entries;
    var ms := Entries(archived, Everything);
    var fs: Layout := map[];
    for i := 0 to |ms|
      invariant RestoreAll(map[], ms) == RestoreAll(fs, ms[i..])
    {
      assert ms[i..][0] == ms[i] && ms[i..][1..] == ms[i + 1..];
      var next := RestoreOne(fs, ms[i]);
      if next.None? { return None; }
      fs := next.value;
    }
    return Some(fs);
  }

  /** copyGeneratedTree, entry by entry. */
  method CopyGeneratedTree(restored: Layout, current: Node, generated: Filter) returns (r: Built)
    requires Inside(Entries(current, generated))
    ensures r == CopyAll(restored, Entries(current, generated))
  {
    hide CopyOne, Entries;
    var ms := Entries(current, generated);
    var fs := restored;
    assert ms[..|ms|] == ms;
    for i := 0 to |ms|
      invariant CopyAll(restored, ms[..i]) == Replaced(fs)
    {
      assert ms[..i + 1][..i] == ms[..i];
      var next := CopyOne(fs, ms[i]);
      if !next.Replaced? {
        ErrorsStay(restored, ms, i + 1);
        return next;
      }
      fs := next.fs;
    }
    return Replaced(fs);
  }

  /** buildDurableReplacement */
  method BuildDurableReplacement(archived: Node, current: Node, generated: Filter) returns (r: Built)
    requires Proper(archived) && Proper(current)
    ensures r == Build(archived, current, generated)
    ensures r.Replaced? ==> r.fs == LayoutOf(archived, Everything) + KeptLayout(current, generated)
  {
    hide RestoreAll, CopyAll, LayoutOf, KeptLayout, AllFit;
    EntriesInside(archived, Everything);
    EntriesInside(current, generated);
    BuildExactly(archived, current, generated);
    var restored := RestoreTree(archived);
    if restored.None? { return Refused; }
    r := CopyGeneratedTree(restored.value, current, generated);
  }

  lemma {:induction false} ErrorsStay(fs: Layout, ms: seq<Member>, n: nat)
    requires n <= |ms| && Inside(ms) && Inside(ms[..n]) && !CopyAll(fs, ms[..n]).Replaced?
    ensures CopyAll(fs, ms) == CopyAll(fs, ms[..n])
    decreases |ms| - n
  {
    if n == |ms| {
      assert ms[..n] == ms;
    } else {
      assert ms[..n + 1][..n] == ms[..n];
      ErrorsStay(fs, ms, n + 1);
    }
  }

  /** Both roots of the running system. */
  function Before(hermes: Node, meta: Node): map<Root, Content> {
    map[DATA_ROOT := Running(hermes), META_ROOT := Running(meta)]
  }

  lemma BothReplaced(hermes: Node, meta: Node, staged: map<Root, Content>)
    requires DATA_ROOT in staged && META_ROOT in staged
    ensures forall x: Content ::
              Swapped(Before(hermes, meta), staged, DATA_ROOT, META_ROOT)[META_ROOT := x]
              == map[DATA_ROOT := staged[DATA_ROOT], META_ROOT := x]
  {
  }

  /** restoreDurableBackup, from the extracted trees of both roots. */
  method RestoreDurableBackup(
    hermes: Node, meta: Node, runningHermes: Node, runningMeta: Node, writes: seq<Content -> Content>,
    record: Content -> Content, calm: bool)
    returns (r: Result, live: map<Root, Content>, ghost aside: map<Root, Content>, ghost slipped: bool)
    requires Proper(hermes) && Proper(meta) && Proper(runningHermes) && Proper(runningMeta)
    ensures var data := Build(hermes, runningHermes, GeneratedHermes);
      var metadata := Build(meta, runningMeta, GeneratedMeta);
      && (r.Ended? <==> hermes.Dir? && meta.Dir? && data.Replaced? && metadata.Replaced?)
      && (r.Followed? <==> hermes.Dir? && meta.Dir? && (data.Through? || (data.Replaced? && metadata.Through?)))
      && (r == Ended(Committed) || r == Ended(Unrecorded) ==>
            var written := Written(Restored(metadata.fs), writes, |writes|);
            live == map[DATA_ROOT := Restored(data.fs), META_ROOT := record(written)]
            || (r == Ended(Unrecorded) && live == map[DATA_ROOT := Restored(data.fs), META_ROOT := written]))
    ensures !r.Ended? ==> live == Before(runningHermes, runningMeta)
    ensures r == Ended(Undone) && !slipped ==> live == Before(runningHermes, runningMeta)
    ensures r.Ended? && !r.outcome.Committed? ==> live + aside == Before(runningHermes, runningMeta)
    ensures calm && r.Ended? ==> r == Ended(Committed)
  {
    var before := Before(runningHermes, runningMeta);
    live, aside, slipped := before, map[], false;
    if !hermes.Dir? || !meta.Dir? { return NotBuilt, before, map[], false; }
    var data := BuildDurableReplacement(hermes, runningHermes, GeneratedHermes);
    if !data.Replaced? { return if data.Through? then Followed else NotBuilt, before, map[], false; }
    var metadata := BuildDurableReplacement(meta, runningMeta, GeneratedMeta);
    if !metadata.Replaced? { return if metadata.Through? then Followed else NotBuilt, before, map[], false; }
    hide Build, Written, Swapped, Before;
    var swap := new Swap(before, map[DATA_ROOT := Restored(data.fs), META_ROOT := Restored(metadata.fs)], calm);
    BothReplaced(runningHermes, runningMeta, swap.staged);
    var outcome := swap.RestoreDurable(DATA_ROOT, META_ROOT, writes, record);
    return Ended(outcome), swap.live, swap.aside, swap.slipped;
  }

  /** What a durable archive of two roots is restored to: each replacement is
      built exactly when all its links pass and its parts share no path, and is
      then the disjoint union of the archived part and the kept part. */
  lemma DurableRestoreExactly(
    hermes: Node, meta: Node, runningHermes: Node, runningMeta: Node, artifact: Path -> bool, bundled: set<string>)
    requires Proper(hermes) && Proper(meta) && Proper(runningHermes) && Proper(runningMeta)
    ensures var takes := HermesFilter(artifact, bundled);
      UnionExactly(LayoutOf(hermes, takes), KeptLayout(runningHermes, GeneratedHermes),
                   Build(Pruned([], hermes, takes), runningHermes, GeneratedHermes))
    ensures var takes := MetaFilter(artifact);
      UnionExactly(LayoutOf(meta, takes), KeptLayout(runningMeta, GeneratedMeta),
                   Build(Pruned([], meta, takes), runningMeta, GeneratedMeta))
  {
    DurableIsNotGenerated(artifact, bundled);
    ReplacementExactly(hermes, runningHermes, HermesFilter(artifact, bundled), GeneratedHermes);
    ReplacementExactly(meta, runningMeta, MetaFilter(artifact), GeneratedMeta);
  }

  predicate UnionExactly(archived: Layout, kept: Layout, built: Built) {
    && (built.Replaced? <==> ArchivedLinksPass(archived) && KeptLinksPass(kept) && archived.Keys !! kept.Keys)
    && (built.Replaced? ==> built == Replaced(archived + kept))
    && (built.Through? ==> exists q <- archived :: archived[q].LinkItem? && q in kept && kept[q].DirItem?)
  }

  // ---------------------------------------------------------------- witnesses

  /** A link in a directory of the Hermes root, through the archive's own name of
      that root. */
  function AroundTarget(): Target {
    Target(false, ["..", "..", "hermes", "y"])
  }

  function WithLinkAround(): Node {
    Dir(Entry("a", Dir(Entry("x", Link(AroundTarget()), Nil)), Nil))
  }

  /** It is admitted to the archive, and no restore of that archive builds a
      replacement. */
  lemma LinkAroundIsRefused(current: Node)
    requires Proper(current)
    ensures SafeLink(HERMES + ["a", "x"], AroundTarget())
    ensures Build(WithLinkAround(), current, GeneratedHermes).Refused?
  {
    var n, t := WithLinkAround(), AroundTarget();
    ResolveAround();
    assert (HERMES + ["a", "x"])[..2] == ["hermes", "a"];
    RestorableLinkExactly("hermes", ["a", "x"], t);
    assert ["hermes"] + ["a", "x"] == HERMES + ["a", "x"];
    assert ["a", "x"][..1] == ["a"];
    EntriesOfAround();
    ArchivedExactly(n);
    assert !LinksRestorable(Entries(n, Everything)) by {
      assert Entries(n, Everything)[1] == Member(["a", "x"], LinkItem(t));
    }
  }

  lemma ResolveStep(at: Path, part: string, rest: seq<string>)
    ensures Resolve(at, [part] + rest) ==
      if part == "" || part == "." then Resolve(at, rest)
      else if part == ".." then (if at == [] then None else Resolve(at[..|at| - 1], rest))
      else Resolve(at + [part], rest)
  {
    assert ([part] + rest)[1..] == rest;
  }

  lemma ResolveAround()
    ensures Resolve(["hermes", "a"], AroundTarget().parts) == Some(["hermes", "y"])
    ensures Resolve(["a"], AroundTarget().parts) == None
  {
    var y, top := ["y"], ["hermes", "y"];
    var up := [".."] + top;
    assert AroundTarget().parts == [".."] + up && top == ["hermes"] + y && y == ["y"] + [];
    hide Resolve;
    ResolveStep(["hermes", "a"], "..", up);
    assert ["hermes", "a"][..1] == ["hermes"];
    ResolveStep(["hermes"], "..", top);
    ResolveStep([], "hermes", y);
    ResolveStep(["hermes"], "y", []);
    ResolveNothing(["hermes", "y"]);
    ResolveStep(["a"], "..", up);
    ResolveStep([], "..", top);
    assert ["a"][..0] == [] && ["hermes"][..0] == [];
    assert [] + ["hermes"] == ["hermes"] && ["hermes"] + ["y"] == ["hermes", "y"];
  }

  lemma ResolveNothing(at: Path)
    ensures Resolve(at, []) == Some(at)
  {
  }

  /** The walk of a directory with one entry. */
  lemma OneEntry(path: Path, rel: Path, name: string, n: Node, takes: Filter)
    ensures WalkForest(path, rel, Entry(name, n, Nil), takes)
         == if takes(rel + [name], n.Dir?) then Walk(path + [name], rel + [name], n, takes) else []
  {
    assert WalkForest(path, rel, Nil, takes) == [];
  }

  lemma EntriesOfAround()
    ensures Entries(WithLinkAround(), Everything)
         == [Member(["a"], DirItem), Member(["a", "x"], LinkItem(AroundTarget()))]
  {
    var inner := Entry("x", Link(AroundTarget()), Nil);
    OneEntry([], [], "a", Dir(inner), Everything);
    OneEntry(["a"], ["a"], "x", Link(AroundTarget()), Everything);
    assert [] + ["a"] == ["a"] && ["a"] + ["x"] == ["a", "x"];
  }

  /** A generated file of the running system that is a link to its neighbour: no
      archive can be restored over it. */
  lemma KeptLinkIsRefused(archived: Node)
    requires Proper(archived)
    ensures !Build(archived, Dir(Entry("services.json", Link(Target(false, ["x"])), Nil)), GeneratedHermes).Replaced?
  {
    var current := Dir(Entry("services.json", Link(Target(false, ["x"])), Nil));
    var path := ["services.json"];
    OneEntry([], [], "services.json", Link(Target(false, ["x"])), GeneratedHermes);
    assert [] + path == path;
    assert GeneratedHermes(path, false);
    assert Entries(current, GeneratedHermes) == [Member(path, LinkItem(Target(false, ["x"])))];
    ResolveStep([], "x", []);
    assert ["x"] + [] == ["x"] && [] + ["x"] == ["x"] && path[..0] == [];
    assert !SafeLink([Base(path)], Target(false, ["x"]));
    BuildExactly(archived, current, GeneratedHermes);
  }
}
