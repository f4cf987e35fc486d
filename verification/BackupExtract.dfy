/** operator/backup_archive.go: extraction of an archive into an empty staging
    directory, and the tree that it rebuilds. */
module BackupExtract {
  import opened Wrappers
  import opened BackupTree
  import opened BackupArchive

  // --------------------------------------------------------- file operations

  /** The directories from the staging directory down to `path`. */
  function Directories(path: Path): Layout {
    map i: nat | 0 < i <= |path| :: path[..i] := DirItem
  }

  /** os.MkdirAll; None is an error. */
  function MakeAll(fs: Layout, path: Path): Option<Layout> {
    if exists i | 0 < i <= |path| :: path[..i] in fs && !fs[path[..i]].DirItem? then None
    else Some(fs + Directories(path))
  }

  /** One member; a link needs its parent, a file or link must be new. */
  function ExtractOne(fs: Layout, m: Member): Option<Layout>
    requires m.path != []
  {
    var parent := m.path[..|m.path| - 1];
    match m.item
    case DirItem => MakeAll(fs, m.path)
    case LinkItem(_) =>
      if m.path in fs || (parent != [] && !(parent in fs && fs[parent].DirItem?)) then None
      else Some(fs[m.path := m.item])
    case FileItem(_) =>
      var made := MakeAll(fs, parent);
      if made.None? || m.path in made.value then None else Some(made.value[m.path := m.item])
  }

  function ExtractAll(fs: Layout, ms: seq<Member>): Option<Layout>
    requires forall m <- ms :: m.path != []
    decreases |ms|
  {
    if ms == [] then Some(fs)
    else
      var next := ExtractOne(fs, ms[0]);
      if next.None? then None else ExtractAll(next.value, ms[1..])
  }

  /** extractRestoreArchive */
  method Extract(components: seq<Path>, ms: seq<Member>) returns (r: Option<Layout>)
    requires forall m <- ms :: m.path != []
    ensures r == if Readable(components, ms) then ExtractAll(map[], ms) else None
  {
    var accepted := Inspect(components, ms);
    if !accepted { return None; }
    var fs: Layout := map[];
    var i := 0;
    while i < |ms|
      invariant 0 <= i <= |ms|
      invariant ExtractAll(map[], ms) == ExtractAll(fs, ms[i..])
    {
      var next := ExtractOne(fs, ms[i]);
      assert ms[i..][1..] == ms[i + 1..];
      if next.None? { return None; }
      fs := next.value;
      i := i + 1;
    }
    return Some(fs);
  }

  // ------------------------------------------------------------ what it leaves

  lemma {:induction false} ExtractAppends(fs: Layout, a: seq<Member>, b: seq<Member>)
    requires forall m <- a + b :: m.path != []
    requires forall m <- a :: m.path != []
    requires forall m <- b :: m.path != []
    ensures ExtractAll(fs, a + b) ==
      var middle := ExtractAll(fs, a); if middle.None? then None else ExtractAll(middle.value, b)
    decreases |a|
  {
    if a == [] {
      assert a + b == b;
    } else {
      assert (a + b)[1..] == a[1..] + b;
      var next := ExtractOne(fs, a[0]);
      if next.Some? {
        ExtractAppends(next.value, a[1..], b);
      }
    }
  }

  /** Every directory above `path` is there. */
  predicate ParentsIn(fs: Layout, path: Path) {
    forall i | 0 < i < |path| :: path[..i] in fs && fs[path[..i]].DirItem?
  }

  predicate Free(fs: Layout, path: Path) {
    forall q <- fs :: !(path <= q)
  }

  lemma MakeAllOfNew(fs: Layout, path: Path)
    requires path != [] && ParentsIn(fs, path) && path !in fs
    ensures MakeAll(fs, path) == Some(fs[path := DirItem])
    ensures MakeAll(fs, path[..|path| - 1]) == Some(fs)
  {
    var parent := path[..|path| - 1];
    forall i | 0 < i <= |path|
      ensures path[..i] in fs ==> fs[path[..i]].DirItem?
      ensures i < |path| ==> path[..i] in fs && fs[path[..i]] == DirItem && parent[..i] == path[..i]
    {
      if i == |path| { assert path[..i] == path; }
    }
    assert path[..|path|] == path;
    assert fs + Directories(path) == fs[path := DirItem];
    assert fs + Directories(parent) == fs;
  }

  lemma LayoutsJoin(a: Layout, b: Layout, c: Layout)
    ensures a + b + c == a + (b + c)
  {
  }

  lemma {:induction false} AddOne(fs: Layout, path: Path, item: Item)
    ensures fs[path := item] == fs + map[path := item]
  {
  }

  lemma ExtractLeaf(fs: Layout, path: Path, item: Item)
    requires path != [] && ParentsIn(fs, path) && path !in fs && !item.DirItem?
    ensures ExtractAll(fs, [Member(path, item)]) == Some(fs + map[path := item])
  {
    MakeAllOfNew(fs, path);
    var parent := path[..|path| - 1];
    assert parent != [] ==> parent in fs && fs[parent].DirItem?;
    assert [Member(path, item)][1..] == [];
    AddOne(fs, path, item);
  }

  /** Extracting the members of a walk rebuilds the walked part of the tree. */
  lemma {:induction false} ExtractWalk(fs: Layout, path: Path, rel: Path, n: Node, takes: Filter)
    requires path != [] && Proper(n) && ParentsIn(fs, path) && Free(fs, path)
    requires forall m <- Walk(path, rel, n, takes) :: m.path != []
    ensures ExtractAll(fs, Walk(path, rel, n, takes)) == Some(fs + Flatten(path, rel, n, takes))
    decreases n
  {
    match n {
      case File(data) => ExtractLeaf(fs, path, FileItem(data));
      case Link(target) => ExtractLeaf(fs, path, LinkItem(target));
      case Special => assert fs + map[] == fs;
      case Dir(entries) =>
        MakeAllOfNew(fs, path);
        var first, inner := [Member(path, DirItem)], WalkForest(path, rel, entries, takes);
        var made := fs + map[path := DirItem];
        AddOne(fs, path, DirItem);
        assert (first + inner)[1..] == inner;
        forall m <- inner ensures m.path != [] { assert m in first + inner; }
        ExtractForest(made, path, rel, entries, takes);
        LayoutsJoin(fs, map[path := DirItem], FlattenForest(path, rel, entries, takes));
    }
  }

  /** No entry of `f` is there yet. */
  predicate RoomFor(fs: Layout, path: Path, f: Forest) {
    && (forall i | 0 < i <= |path| :: path[..i] in fs && fs[path[..i]].DirItem?)
    && forall q <- fs :: path <= q && |q| > |path| ==> q[|path|] !in Names(f)
  }

  lemma RoomForChild(fs: Layout, path: Path, f: Forest)
    requires f.Entry? && RoomFor(fs, path, f)
    ensures ParentsIn(fs, path + [f.name]) && Free(fs, path + [f.name])
  {
    var child := path + [f.name];
    forall i | 0 < i < |child| ensures child[..i] in fs && fs[child[..i]].DirItem? { assert child[..i] == path[..i]; }
    forall q | child <= q ensures q !in fs { assert q[|path|] == f.name && path <= q; }
  }

  lemma RoomForRest(fs: Layout, path: Path, f: Forest, rel: Path, takes: Filter)
    requires f.Entry? && ProperForest(f) && RoomFor(fs, path, f)
    ensures RoomFor(fs + Flatten(path + [f.name], rel + [f.name], f.node, takes), path, f.rest)
  {
    var flat := Flatten(path + [f.name], rel + [f.name], f.node, takes);
    FlattenIsBelow(path + [f.name], rel + [f.name], f.node, takes);
    forall q <- flat ensures |q| > |path| && q[|path|] == f.name { assert path + [f.name] <= q; }
  }

  lemma {:induction false} ExtractForest(fs: Layout, path: Path, rel: Path, f: Forest, takes: Filter)
    requires ProperForest(f) && RoomFor(fs, path, f)
    requires forall m <- WalkForest(path, rel, f, takes) :: m.path != []
    ensures ExtractAll(fs, WalkForest(path, rel, f, takes)) == Some(fs + FlattenForest(path, rel, f, takes))
    decreases f
  {
    match f {
      case Nil =>
        assert fs + map[] == fs;
      case Entry(name, n, rest) =>
        var others := WalkForest(path, rel, rest, takes);
        if takes(rel + [name], n.Dir?) {
          var first := Walk(path + [name], rel + [name], n, takes);
          var flat := Flatten(path + [name], rel + [name], n, takes);
          forall m <- first ensures m.path != [] { assert m in first + others; }
          forall m <- others ensures m.path != [] { assert m in first + others; }
          RoomForChild(fs, path, f);
          ExtractWalk(fs, path + [name], rel + [name], n, takes);
          RoomForRest(fs, path, f, rel, takes);
          ExtractForest(fs + flat, path, rel, rest, takes);
          ExtractAppends(fs, first, others);
          LayoutsJoin(fs, flat, FlattenForest(path, rel, rest, takes));
        } else {
          assert [] + others == others;
          ExtractForest(fs, path, rel, rest, takes);
          assert map[] + FlattenForest(path, rel, rest, takes) == FlattenForest(path, rel, rest, takes);
        }
    }
  }

  /** A durable backup that was written restores, path by path, exactly what the
      two pruned walks select. */
  lemma DurableRoundTrip(hermes: Node, meta: Node, takesHermes: Filter, takesMeta: Filter)
    requires Proper(hermes) && Proper(meta)
    requires WithinLimits(DurableMembers(hermes, meta, takesHermes, takesMeta))
    ensures var ms := DurableMembers(hermes, meta, takesHermes, takesMeta);
      && (forall m <- ms :: m.path != [])
      && ExtractAll(map[], ms) == Some(Flatten(HERMES, [], hermes, takesHermes) + Flatten(META, [], meta, takesMeta))
  {
    var a, b := Walk(HERMES, [], hermes, takesHermes), Walk(META, [], meta, takesMeta);
    WalkIsBelow(HERMES, [], hermes, takesHermes);
    WalkIsBelow(META, [], meta, takesMeta);
    var first := Flatten(HERMES, [], hermes, takesHermes);
    assert map[] + first == first;
    ExtractWalk(map[], HERMES, [], hermes, takesHermes);
    FlattenIsBelow(HERMES, [], hermes, takesHermes);
    forall q <- first ensures !(META <= q) { assert q[0] == "hermes"; }
    ExtractWalk(first, META, [], meta, takesMeta);
    ExtractAppends(map[], a, b);
  }

  /** The restored tree, path by path: a path below either root is there exactly
      when its walk took it and every directory above it. */
  lemma RestoredExactly(hermes: Node, meta: Node, takesHermes: Filter, takesMeta: Filter, below: Path)
    requires Proper(hermes) && Proper(meta)
    ensures var restored := Flatten(HERMES, [], hermes, takesHermes) + Flatten(META, [], meta, takesMeta);
      && SelectedAt(restored, HERMES + below, Selected([], hermes, takesHermes, below))
      && SelectedAt(restored, META + below, Selected([], meta, takesMeta, below))
  {
    FlattenSelects(HERMES, [], hermes, takesHermes, below);
    FlattenSelects(META, [], meta, takesMeta, below);
    FlattenIsBelow(HERMES, [], hermes, takesHermes);
    FlattenIsBelow(META, [], meta, takesMeta);
    assert (HERMES + below)[0] == "hermes" && (META + below)[0] == "meta";
    assert HERMES + below !in Flatten(META, [], meta, takesMeta);
    assert META + below !in Flatten(HERMES, [], hermes, takesHermes);
  }

  /** `path` holds what was found, or nothing if nothing was. */
  predicate SelectedAt(fs: Layout, path: Path, found: Option<Node>) {
    && (path in fs <==> found.Some? && ItemOf(found.value).Some?)
    && (path in fs ==> Some(fs[path]) == ItemOf(found.value))
  }
}
