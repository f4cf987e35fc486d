/** operator/backup_archive.go and backup.go: which paths a durable backup takes,
    which ones a restore keeps from the running system, and which links pass. */
module BackupRules {
  import opened Wrappers
  import opened Texts
  import opened BackupTree
  import opened BackupArchive

  function Base(path: Path): string
    requires path != []
  {
    path[|path| - 1]
  }

  // ------------------------------------------------------------- the filters

  /** excludedBackupPath */
  predicate Excluded(rel: Path)
    requires rel != []
  {
    || (|rel| >= 3 && rel[0] == "locho" && Base(rel) == "attachments.toml")
    || (exists part <- rel :: part in {"secrets", "pairing", "mcp-tokens", "browser-profile", "logs"})
    || Base(rel) in {"shares.sqlite", "shares.sqlite-wal", "shares.sqlite-shm", "auth.json"}
    || HasSuffix(Base(rel), ".env") || HasSuffix(Base(rel), ".sock") || HasSuffix(Base(rel), ".secret")
    || Contains(Base(rel), ".secret")
  }

  /** portableHermesGeneratedPath */
  predicate GeneratedHermes(rel: Path, isDir: bool) {
    if isDir then rel == ["backups"]
    else
      || (|rel| >= 2 && rel[0] == "backups")
      || (|rel| == 1 && rel[0] in {"config.yaml", "services.json", "gateway_state.json", "channel_directory.json",
            ".clean_shutdown", "gateway-starts.log", "gateway.lock", "gateway.pid", "gateway.sock"})
  }

  /** durableHermesPath; `artifact` tells disposable build output, `bundled` the
      skill groups that come with the release. */
  predicate DurableHermes(rel: Path, isDir: bool, artifact: Path -> bool, bundled: set<string>) {
    && rel != [] && !Excluded(rel) && !artifact(rel)
    && if rel[0] in {"ingestion", "usage", "maintainer"} then
         !HasSuffix(Base(rel), "-shm") && !HasSuffix(Base(rel), ".lock") && !HasSuffix(Base(rel), ".sock")
         && !HasSuffix(Base(rel), ".pid") && !HasSuffix(Base(rel), ".tmp")
       else if rel[0] == ".local" then
         if |rel| == 1 then isDir
         else rel[1] == "manifests" && !HasSuffix(Base(rel), ".lock") && !HasSuffix(Base(rel), ".tmp")
       else
         && (forall part <- rel ::
               part !in {"logs", "cache", "audio_cache", "image_cache", "lazy-packages", "bin", "home", ".local",
                 ".npm"})
         && !GeneratedHermes(rel, isDir)
         && Base(rel) !in {".bundled_manifest", ".openlia-disabled", "auth.json"}
         && !("models_dev_cache" <= Base(rel))
         && !HasSuffix(Base(rel), ".sock") && !HasSuffix(Base(rel), ".pid") && !HasSuffix(Base(rel), ".lock")
         && !HasSuffix(Base(rel), ".env")
         && !(|rel| >= 2 && rel[0] == "skills" && rel[1] in bundled)
  }

  /** portableMetaGeneratedPath */
  predicate GeneratedMeta(rel: Path, isDir: bool) {
    if isDir then rel == ["locks"]
    else
      || (|rel| >= 2 && rel[0] == "locks")
      || (|rel| == 1 && rel[0] in {"runtime.json", "last-change.json", "stack-state", "services.json",
            "backup-schedule-config.json", "backup-schedule-state.json", "backup-destinations.json"})
  }

  /** durableMetaPath */
  predicate DurableMeta(rel: Path, isDir: bool, artifact: Path -> bool) {
    && rel != [] && !Excluded(rel) && !artifact(rel) && !GeneratedMeta(rel, isDir)
    && forall part <- rel :: part != "locks" && !HasSuffix(part, ".lock")
  }

  predicate Everything(rel: Path, isDir: bool) {
    true
  }

  /** Every node that is there. */
  function Find(n: Node, below: Path): Option<Node> {
    Selected([], n, Everything, below)
  }

  /** No path of one kind is both backed up and kept from the running system. */
  ghost predicate Exclusive(takes: Filter, generated: Filter) {
    forall rel: Path, isDir: bool :: takes(rel, isDir) ==> !generated(rel, isDir)
  }

  /** What is generated lies at most one directory deep. */
  ghost predicate Shallow(generated: Filter) {
    && (forall rel: Path :: generated(rel, true) ==> |rel| == 1)
    && forall rel: Path, isDir: bool :: generated(rel, isDir) && |rel| >= 2 ==> TopIsTaken(generated, rel)
  }

  predicate TopIsTaken(generated: Filter, rel: Path)
    requires rel != []
  {
    generated([rel[0]], true)
  }

  function HermesFilter(artifact: Path -> bool, bundled: set<string>): Filter {
    (rel, isDir) => DurableHermes(rel, isDir, artifact, bundled)
  }

  function MetaFilter(artifact: Path -> bool): Filter {
    (rel, isDir) => DurableMeta(rel, isDir, artifact)
  }

  lemma HermesIsNotGenerated(rel: Path, isDir: bool, artifact: Path -> bool, bundled: set<string>)
    ensures DurableHermes(rel, isDir, artifact, bundled) ==> !GeneratedHermes(rel, isDir)
  {
    hide Excluded;
  }

  lemma DurableIsNotGenerated(artifact: Path -> bool, bundled: set<string>)
    ensures Exclusive(HermesFilter(artifact, bundled), GeneratedHermes)
    ensures Exclusive(MetaFilter(artifact), GeneratedMeta)
  {
    forall rel: Path, isDir: bool
      ensures DurableHermes(rel, isDir, artifact, bundled) ==> !GeneratedHermes(rel, isDir)
    {
      HermesIsNotGenerated(rel, isDir, artifact, bundled);
    }
  }

  lemma GeneratedIsShallow()
    ensures Shallow(GeneratedHermes) && Shallow(GeneratedMeta)
  {
  }

  // ------------------------------------------------- what a restore keeps

  /** copyRestoreEntry passes over sockets, locks and process files. */
  predicate PassedOver(name: string, n: Node) {
    n.Special? || (n.File? && (HasSuffix(name, ".sock") || HasSuffix(name, ".pid") || HasSuffix(name, ".lock")))
  }

  /** copyGeneratedTree: what it copies at a path below the current root. */
  function Kept(current: Node, generated: Filter, below: Path): Option<Node>
    requires below != []
  {
    var found := Selected([], current, generated, below);
    if found.None? || PassedOver(Base(below), found.value) then None else found
  }

  /** An entry is kept exactly when it is generated, not passed over, and lies at
      most one directory deep. */
  lemma GeneratedKeptExactly(current: Node, generated: Filter, below: Path)
    requires below != [] && Shallow(generated)
    ensures var found := Find(current, below);
      Kept(current, generated, below).Some?
      <==> found.Some? && generated(below, found.value.Dir?) && |below| <= 2 && !PassedOver(Base(below), found.value)
    ensures Kept(current, generated, below).Some? ==> Kept(current, generated, below) == Find(current, below)
  {
    GeneratedTakenExactly(current, generated, below);
  }

  lemma GeneratedTakenExactly(n: Node, generated: Filter, below: Path)
    requires below != [] && Shallow(generated)
    ensures var taken := Selected([], n, generated, below); var found := Find(n, below);
      (taken.Some? <==> found.Some? && generated(below, found.value.Dir?) && |below| <= 2)
      && (taken.Some? ==> taken == found)
  {
    if n.Dir? {
      var child := Child(n.entries, below[0]);
      assert [] + [below[0]] == [below[0]];
      if |below| == 1 {
        SelectedOne([], n, generated, below);
        SelectedOne([], n, Everything, below);
        assert [] + below == below;
      } else if child.Some? {
        var rest := below[1..];
        if |below| == 2 {
          SelectedOne([below[0]], child.value, generated, rest);
          SelectedOne([below[0]], child.value, Everything, rest);
          assert [below[0]] + rest == below;
        } else {
          TooDeep([below[0]], child.value, generated, rest);
        }
      }
    }
  }

  lemma SelectedOne(rel: Path, n: Node, takes: Filter, below: Path)
    requires |below| == 1
    ensures Selected(rel, n, takes, below) ==
      if n.Dir? && Child(n.entries, below[0]).Some? && takes(rel + below, Child(n.entries, below[0]).value.Dir?)
      then Child(n.entries, below[0]) else None
  {
    assert below == [below[0]] && below[1..] == [];
  }

  lemma TooDeep(rel: Path, n: Node, generated: Filter, below: Path)
    requires |rel| == 1 && |below| >= 2 && Shallow(generated)
    ensures Selected(rel, n, generated, below).None?
  {
    assert !generated(rel + [below[0]], true);
  }

  lemma {:induction false} SelectedWasTaken(rel: Path, n: Node, takes: Filter, below: Path)
    requires below != [] && Selected(rel, n, takes, below).Some?
    ensures takes(rel + below, Selected(rel, n, takes, below).value.Dir?)
    ensures |below| > 1 ==> takes(rel + [below[0]], true)
    decreases |below|
  {
    var child := Child(n.entries, below[0]).value;
    if |below| == 1 {
      assert below == [below[0]];
    } else {
      SelectedWasTaken(rel + [below[0]], child, takes, below[1..]);
      assert rel + [below[0]] + below[1..] == rel + below;
    }
  }

  lemma DeepIsLost(n: Node, current: Node, below: Path, takes: Filter, generated: Filter)
    requires Exclusive(takes, generated) && Shallow(generated)
    requires |below| >= 3 && generated([below[0]], true)
    ensures Selected([], n, takes, below).None? && Kept(current, generated, below).None?
  {
    GeneratedKeptExactly(current, generated, below);
    assert [] + [below[0]] == [below[0]];
    if Selected([], n, takes, below).Some? { SelectedWasTaken([], n, takes, below); }
  }

  /** A file two or more directories below the backups or the locks of a system is
      in neither part of a restored root: the archive leaves it out, and it is not
      kept from the running system either. */
  lemma DeepGeneratedFileIsLost(n: Node, current: Node, below: Path, artifact: Path -> bool, bundled: set<string>)
    requires |below| >= 3
    ensures below[0] == "backups" ==>
              && Selected([], n, HermesFilter(artifact, bundled), below).None?
              && Kept(current, GeneratedHermes, below).None?
    ensures below[0] == "locks" ==>
              Selected([], n, MetaFilter(artifact), below).None? && Kept(current, GeneratedMeta, below).None?
  {
    DurableIsNotGenerated(artifact, bundled);
    GeneratedIsShallow();
    hide Exclusive, Shallow, Selected, Kept, HermesFilter, MetaFilter;
    if below[0] == "backups" {
      DeepIsLost(n, current, below, HermesFilter(artifact, bundled), GeneratedHermes);
    }
    if below[0] == "locks" { DeepIsLost(n, current, below, MetaFilter(artifact), GeneratedMeta); }
  }

  // ------------------------------------------------------------------- links

  /** Resolving below a first segment is resolving without it, as long as the
      way never climbs out. */
  lemma {:induction false} ResolveBelow(root: string, at: Path, parts: seq<string>)
    ensures Resolve(at, parts).Some? ==> Resolve([root] + at, parts) == Some([root] + Resolve(at, parts).value)
    decreases |parts|
  {
    if parts != [] {
      if parts[0] == "" || parts[0] == "." {
        ResolveBelow(root, at, parts[1..]);
      } else if parts[0] == ".." {
        if at != [] {
          assert ([root] + at)[..|[root] + at| - 1] == [root] + at[..|at| - 1];
          ResolveBelow(root, at[..|at| - 1], parts[1..]);
        }
      } else {
        assert [root] + at + [parts[0]] == [root] + (at + [parts[0]]);
        ResolveBelow(root, at + [parts[0]], parts[1..]);
      }
    }
  }

  /** Once the way has climbed out, where it ends no longer depends on the root. */
  lemma {:induction false} ResolveOutside(a: string, b: string, at: Path, parts: seq<string>)
    requires Resolve(at, parts).None?
    ensures Resolve([a] + at, parts) == Resolve([b] + at, parts)
    decreases |parts|
  {
    if parts[0] == "" || parts[0] == "." {
      ResolveOutside(a, b, at, parts[1..]);
    } else if parts[0] == ".." {
      if at == [] {
        assert [a][..0] == [b][..0] == [];
        assert [a] + at == [a] && [b] + at == [b];
      } else {
        assert ([a] + at)[..|[a] + at| - 1] == [a] + at[..|at| - 1];
        assert ([b] + at)[..|[b] + at| - 1] == [b] + at[..|at| - 1];
        ResolveOutside(a, b, at[..|at| - 1], parts[1..]);
      }
    } else {
      assert [a] + at + [parts[0]] == [a] + (at + [parts[0]]);
      assert [b] + at + [parts[0]] == [b] + (at + [parts[0]]);
      ResolveOutside(a, b, at + [parts[0]], parts[1..]);
    }
  }

  const RESTORE_ROOT := "root"

  /** A link that the archive admits under `top` is admitted again when the
      restored tree is built, where the root has another name, exactly when its
      way never climbs out of the root. */
  lemma RestorableLinkExactly(top: string, rel: Path, target: Target)
    requires rel != [] && top != RESTORE_ROOT
    requires SafeLink([top] + rel, target)
    ensures SafeLink([RESTORE_ROOT] + rel, target) <==> Resolve(rel[..|rel| - 1], target.parts).Some?
  {
    var at := rel[..|rel| - 1];
    assert ([top] + rel)[..|[top] + rel| - 1] == [top] + at;
    assert ([RESTORE_ROOT] + rel)[..|[RESTORE_ROOT] + rel| - 1] == [RESTORE_ROOT] + at;
    if Resolve(at, target.parts).Some? {
      ResolveBelow(RESTORE_ROOT, at, target.parts);
    } else {
      ResolveOutside(top, RESTORE_ROOT, at, target.parts);
    }
  }
}
