/** operator/backup_archive.go: directory trees, and the part of a tree that a
    pruned walk visits.  A path is the list of its segments. */
module BackupTree {
  import opened Wrappers

  type Path = seq<string>

  /** The target of a symbolic link, cut at its slashes. */
  datatype Target = Target(absolute: bool, parts: seq<string>)

  datatype Node = File(data: string) | Link(target: Target) | Dir(entries: Forest) | Special

  /** The entries of one directory, in the order in which a walk visits them. */
  datatype Forest = Nil | Entry(name: string, node: Node, rest: Forest)

  /** What a path of a file system holds. */
  datatype Item = FileItem(data: string) | LinkItem(target: Target) | DirItem

  type Layout = map<Path, Item>

  /** The member of an archive. */
  datatype Member = Member(path: Path, item: Item)

  function Names(f: Forest): set<string> {
    match f
    case Nil => {}
    case Entry(name, _, rest) => {name} + Names(rest)
  }

  /** No directory has two entries of one name. */
  predicate Proper(n: Node) {
    n.Dir? ==> ProperForest(n.entries)
  }

  predicate ProperForest(f: Forest) {
    f.Entry? ==> f.name !in Names(f.rest) && Proper(f.node) && ProperForest(f.rest)
  }

  /** Whether a walk takes an entry, given its path below the root and whether it
      is a directory; a directory it does not take is not entered. */
  type Filter = (Path, bool) -> bool

  // --------------------------------------------------------------- the walk

  /** The members that a walk of `n` writes, `path` being its place in the archive
      and `rel` its place below the root. */
  function Walk(path: Path, rel: Path, n: Node, takes: Filter): seq<Member>
    decreases n
  {
    match n
    case File(data) => [Member(path, FileItem(data))]
    case Link(target) => [Member(path, LinkItem(target))]
    case Special => []
    case Dir(entries) => [Member(path, DirItem)] + WalkForest(path, rel, entries, takes)
  }

  function WalkForest(path: Path, rel: Path, f: Forest, takes: Filter): seq<Member>
    decreases f
  {
    match f
    case Nil => []
    case Entry(name, n, rest) =>
      (if takes(rel + [name], n.Dir?) then Walk(path + [name], rel + [name], n, takes) else [])
      + WalkForest(path, rel, rest, takes)
  }

  /** The same part of the tree as a map from paths. */
  function Flatten(path: Path, rel: Path, n: Node, takes: Filter): Layout
    decreases n
  {
    match n
    case File(data) => map[path := FileItem(data)]
    case Link(target) => map[path := LinkItem(target)]
    case Special => map[]
    case Dir(entries) => map[path := DirItem] + FlattenForest(path, rel, entries, takes)
  }

  function FlattenForest(path: Path, rel: Path, f: Forest, takes: Filter): Layout
    decreases f
  {
    match f
    case Nil => map[]
    case Entry(name, n, rest) =>
      (if takes(rel + [name], n.Dir?) then Flatten(path + [name], rel + [name], n, takes) else map[])
      + FlattenForest(path, rel, rest, takes)
  }

  // ------------------------------------------- what the walk selects, by path

  function Child(f: Forest, name: string): Option<Node> {
    match f
    case Nil => None
    case Entry(m, n, rest) => if m == name then Some(n) else Child(rest, name)
  }

  /** The node at `below`, if the filter takes it and every directory above it. */
  function Selected(rel: Path, n: Node, takes: Filter, below: Path): Option<Node>
    decreases |below|
  {
    if below == [] then Some(n)
    else if !n.Dir? then None
    else
      var child := Child(n.entries, below[0]);
      if child.None? || !takes(rel + [below[0]], child.value.Dir?) then None
      else Selected(rel + [below[0]], child.value, takes, below[1..])
  }

  function ItemOf(n: Node): Option<Item> {
    match n
    case File(data) => Some(FileItem(data))
    case Link(target) => Some(LinkItem(target))
    case Dir(_) => Some(DirItem)
    case Special => None
  }

  predicate Below(path: Path, q: Path) {
    path <= q
  }

  lemma {:induction false} FlattenIsBelow(path: Path, rel: Path, n: Node, takes: Filter)
    ensures forall q <- Flatten(path, rel, n, takes) :: Below(path, q)
    decreases n
  {
    if n.Dir? {
      FlattenForestIsBelow(path, rel, n.entries, takes);
    }
  }

  lemma {:induction false} FlattenForestIsBelow(path: Path, rel: Path, f: Forest, takes: Filter)
    ensures forall q <- FlattenForest(path, rel, f, takes) :: |q| > |path| && Below(path, q) && q[|path|] in Names(f)
    decreases f
  {
    if f.Entry? {
      FlattenForestIsBelow(path, rel, f.rest, takes);
      FlattenIsBelow(path + [f.name], rel + [f.name], f.node, takes);
    }
  }

  /** The walk selects a path exactly when the filter takes it and every
      directory on the way, and it takes what is there. */
  lemma {:induction false} FlattenSelects(path: Path, rel: Path, n: Node, takes: Filter, below: Path)
    requires Proper(n)
    ensures var found := Selected(rel, n, takes, below); var flat := Flatten(path, rel, n, takes);
      (path + below in flat <==> found.Some? && ItemOf(found.value).Some?)
      && (path + below in flat ==> Some(flat[path + below]) == ItemOf(found.value))
    decreases n
  {
    if below == [] {
      assert path + below == path;
      if n.Dir? { FlattenForestIsBelow(path, rel, n.entries, takes); }
    } else if n.Dir? {
      FlattenForestSelects(path, rel, n.entries, takes, below);
      assert path + below != path;
    }
  }

  lemma {:induction false} FlattenForestSelects(path: Path, rel: Path, f: Forest, takes: Filter, below: Path)
    requires ProperForest(f) && below != []
    ensures var found := Selected(rel, Dir(f), takes, below); var flat := FlattenForest(path, rel, f, takes);
      (path + below in flat <==> found.Some? && ItemOf(found.value).Some?)
      && (path + below in flat ==> Some(flat[path + below]) == ItemOf(found.value))
    decreases f
  {
    if f.Entry? {
      var name, q := f.name, path + below;
      assert q[|path|] == below[0];
      FlattenForestIsBelow(path, rel, f.rest, takes);
      FlattenIsBelow(path + [name], rel + [name], f.node, takes);
      if below[0] == name {
        assert path + below == path + [name] + below[1..];
        FlattenSelects(path + [name], rel + [name], f.node, takes, below[1..]);
      } else {
        FlattenForestSelects(path, rel, f.rest, takes, below);
        assert !(path + [name] <= q);
      }
    }
  }
}
