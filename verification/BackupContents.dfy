/** operator/backup_archive.go: what a durable backup holds and what a restore
    brings back, path by path, with the reason for everything that is left out. */
module BackupContents {
  import opened Wrappers
  import opened Texts
  import opened BackupTree
  import opened BackupArchive
  import opened BackupExtract
  import opened BackupRules
  import opened BackupReplacement

  // ------------------------------------------------------------------ reasons

  /** Why a path of the data root is left out. */
  datatype Reason =
    | Secret              // credentials, shares and browser state
    | Log
    | Disposable          // build output
    | Transient           // locks, sockets and half-written files of a state directory
    | LocalState          // of the local directory only the manifests are taken
    | RuntimeDirectory    // caches, packages and home directories
    | Regenerated         // written again by the next start
    | Marker
    | Handle              // sockets, process files, locks and environment files
    | BundledSkill        // comes with the release

  predicate Through(rel: Path, names: set<string>) {
    exists i | 0 <= i < |rel| :: rel[i] in names
  }

  predicate StateArea(rel: Path) {
    rel != [] && rel[0] in {"ingestion", "usage", "maintainer"}
  }

  predicate LocalArea(rel: Path) {
    rel != [] && rel[0] == ".local"
  }

  ghost predicate IsSecret(rel: Path)
    requires rel != []
  {
    var base := rel[|rel| - 1];
    || (rel[0] == "locho" && base == "attachments.toml" && |rel| >= 3)
    || Through(rel, {"secrets", "pairing", "mcp-tokens", "browser-profile"})
    || base == "shares.sqlite" || base == "shares.sqlite-wal" || base == "shares.sqlite-shm" || base == "auth.json"
    || EndsIn(base, ".env") || EndsIn(base, ".sock") || Holds(base, ".secret")
  }

  ghost predicate IsRegenerated(rel: Path, isDir: bool) {
    || (rel == ["backups"] && isDir)
    || (|rel| > 1 && rel[0] == "backups" && !isDir)
    || (!isDir && exists name :: rel == [name] && name in REGENERATED)
  }

  const REGENERATED := {
    "config.yaml", "services.json", "gateway_state.json", "channel_directory.json", ".clean_shutdown",
    "gateway-starts.log", "gateway.lock", "gateway.pid", "gateway.sock"}

  const RUNTIME_DIRECTORIES := {
    "cache", "audio_cache", "image_cache", "lazy-packages", "bin", "home", ".local", ".npm"}

  const SUFFIXES := ["-shm", ".lock", ".sock", ".pid", ".tmp", ".env"]

  ghost predicate LeftOut(why: Reason, rel: Path, isDir: bool, artifact: Path -> bool, bundled: set<string>)
    requires rel != []
  {
    var base, state, local := rel[|rel| - 1], StateArea(rel), LocalArea(rel);
    match why
    case Secret => IsSecret(rel)
    case Log => Through(rel, {"logs"})
    case Disposable => artifact(rel)
    case Transient =>
      state && (EndsIn(base, "-shm") || EndsIn(base, ".lock") || EndsIn(base, ".pid") || EndsIn(base, ".tmp"))
    case LocalState =>
      local
      && if |rel| == 1 then !isDir else rel[1] != "manifests" || EndsIn(base, ".lock") || EndsIn(base, ".tmp")
    case RuntimeDirectory =>
      !state && !local
      && Through(rel, RUNTIME_DIRECTORIES)
    case Regenerated => !state && !local && IsRegenerated(rel, isDir)
    case Marker =>
      !state && !local
      && (base in {".bundled_manifest", ".openlia-disabled"} || exists more :: base == "models_dev_cache" + more)
    case Handle => !state && !local && (EndsIn(base, ".pid") || EndsIn(base, ".lock"))
    case BundledSkill => rel[0] == "skills" && |rel| > 1 && rel[1] in bundled
  }

  lemma SuffixesExactly(text: string)
    ensures forall suffix <- SUFFIXES ::
              EndsIn(text, suffix) <==> HasSuffix(text, suffix)
  {
    forall suffix <- SUFFIXES
      ensures EndsIn(text, suffix) <==> HasSuffix(text, suffix)
    {
      EndsInExactly(text, suffix);
    }
  }

  lemma SuffixesSeen()
    ensures "-shm" in SUFFIXES && ".lock" in SUFFIXES && ".sock" in SUFFIXES && ".pid" in SUFFIXES
         && ".tmp" in SUFFIXES && ".env" in SUFFIXES
  {
    assert SUFFIXES[0] == "-shm" && SUFFIXES[1] == ".lock" && SUFFIXES[2] == ".sock";
    assert SUFFIXES[3] == ".pid" && SUFFIXES[4] == ".tmp" && SUFFIXES[5] == ".env";
  }

  lemma ThroughExactly(rel: Path, names: set<string>)
    ensures Through(rel, names) <==> exists part <- rel :: part in names
  {
    if part :| part in rel && part in names {
      var i :| 0 <= i < |rel| && rel[i] == part;
    }
  }

  lemma StartsExactly(text: string, start: string)
    ensures (exists more :: text == start + more) <==> start <= text
  {
    if start <= text { assert text == start + text[|start|..]; }
  }

  // ------------------------------------------------------------- the data root

  lemma SecretsExactly(rel: Path)
    requires rel != []
    ensures Excluded(rel) <==> IsSecret(rel) || Through(rel, {"logs"})
  {
    var base := Base(rel);
    EndsInExactly(base, ".env");
    EndsInExactly(base, ".sock");
    HoldsExactly(base, ".secret");
    if HasSuffix(base, ".secret") {
      EndsInExactly(base, ".secret");
      var stem :| base == stem + ".secret";
      assert base == stem + ".secret" + "";
    }
    ThroughExactly(rel, {"secrets", "pairing", "mcp-tokens", "browser-profile"});
    ThroughExactly(rel, {"logs"});
  }

  lemma RegeneratedExactly(rel: Path, isDir: bool)
    requires rel != []
    ensures GeneratedHermes(rel, isDir) <==> IsRegenerated(rel, isDir)
  {
    if |rel| == 1 { assert rel == [rel[0]]; }
  }

  /** What the tests of the filter say in these terms. */
  lemma TestsOfHermes(rel: Path, isDir: bool)
    requires rel != []
    ensures var base := Base(rel);
      && (Excluded(rel) <==> IsSecret(rel) || Through(rel, {"logs"}))
      && (GeneratedHermes(rel, isDir) <==> IsRegenerated(rel, isDir))
      && ((exists part <- rel :: part in RUNTIME_DIRECTORIES) <==> Through(rel, RUNTIME_DIRECTORIES))
      && ("models_dev_cache" <= base <==> exists more :: base == "models_dev_cache" + more)
      && forall suffix <- SUFFIXES :: EndsIn(base, suffix) <==> HasSuffix(base, suffix)
  {
    SecretsExactly(rel);
    RegeneratedExactly(rel, isDir);
    ThroughExactly(rel, RUNTIME_DIRECTORIES);
    StartsExactly(Base(rel), "models_dev_cache");
    SuffixesExactly(Base(rel));
  }

  /** Whatever there is a reason to leave out is left out. */
  lemma ReasonsHold(why: Reason, rel: Path, isDir: bool, artifact: Path -> bool, bundled: set<string>)
    requires rel != [] && LeftOut(why, rel, isDir, artifact, bundled)
    ensures !DurableHermes(rel, isDir, artifact, bundled)
  {
    TestsOfHermes(rel, isDir);
    SuffixesSeen();
    hide HasSuffix, Excluded, IsSecret, Through, EndsIn, GeneratedHermes, IsRegenerated;
    match why { case _ => }
  }

  /** And for whatever is left out there is a reason. */
  lemma ReasonFor(rel: Path, isDir: bool, artifact: Path -> bool, bundled: set<string>) returns (why: Reason)
    requires rel != [] && !DurableHermes(rel, isDir, artifact, bundled)
    ensures LeftOut(why, rel, isDir, artifact, bundled)
  {
    TestsOfHermes(rel, isDir);
    SuffixesSeen();
    hide HasSuffix, Excluded, IsSecret, Through, EndsIn, GeneratedHermes, IsRegenerated;
    if IsSecret(rel) { return Secret; }
    if Excluded(rel) { return Log; }
    if artifact(rel) { return Disposable; }
    if StateArea(rel) { return Transient; }
    if LocalArea(rel) { return LocalState; }
    hide DurableHermes;
    why := OrdinaryReason(rel, isDir, artifact, bundled);
  }

  lemma OrdinaryReason(rel: Path, isDir: bool, artifact: Path -> bool, bundled: set<string>) returns (why: Reason)
    requires rel != [] && !DurableHermes(rel, isDir, artifact, bundled)
    requires !Excluded(rel) && !artifact(rel) && !StateArea(rel) && !LocalArea(rel)
    ensures LeftOut(why, rel, isDir, artifact, bundled)
  {
    TestsOfHermes(rel, isDir);
    SuffixesSeen();
    SecretParts(rel);
    hide HasSuffix, Excluded, IsSecret, Through, EndsIn, GeneratedHermes, IsRegenerated;
    if Through(rel, RUNTIME_DIRECTORIES) { return RuntimeDirectory; }
    if IsRegenerated(rel, isDir) { return Regenerated; }
    if EndsIn(Base(rel), ".pid") || EndsIn(Base(rel), ".lock") { return Handle; }
    if rel[0] == "skills" && |rel| > 1 && rel[1] in bundled { return BundledSkill; }
    why := Marker;
  }

  lemma SecretParts(rel: Path)
    requires rel != [] && !IsSecret(rel)
    ensures Base(rel) != "auth.json" && !EndsIn(Base(rel), ".env") && !EndsIn(Base(rel), ".sock")
  {
  }

  /** A path of the data root is taken exactly when there is no reason to leave
      it out. */
  lemma HermesTakesExactly(rel: Path, isDir: bool, artifact: Path -> bool, bundled: set<string>)
    requires rel != []
    ensures DurableHermes(rel, isDir, artifact, bundled)
       <==> forall why: Reason :: !LeftOut(why, rel, isDir, artifact, bundled)
  {
    if !DurableHermes(rel, isDir, artifact, bundled) {
      var why := ReasonFor(rel, isDir, artifact, bundled);
    }
    forall why: Reason | LeftOut(why, rel, isDir, artifact, bundled)
      ensures !DurableHermes(rel, isDir, artifact, bundled)
    {
      ReasonsHold(why, rel, isDir, artifact, bundled);
    }
  }

  // --------------------------------------------------------- the metadata root

  /** Why a path of the metadata root is left out. */
  ghost predicate LeftOutOfMeta(why: Reason, rel: Path, isDir: bool, artifact: Path -> bool)
    requires rel != []
  {
    match why
    case Secret => IsSecret(rel)
    case Log => Through(rel, {"logs"})
    case Disposable => artifact(rel)
    case Regenerated => IsMetaRegenerated(rel, isDir)
    case Handle => ThroughLock(rel)
    case _ => false
  }

  ghost predicate IsMetaRegenerated(rel: Path, isDir: bool) {
    || (rel == ["locks"] && isDir)
    || (|rel| > 1 && rel[0] == "locks" && !isDir)
    || (!isDir && exists name :: rel == [name] && name in META_REGENERATED)
  }

  ghost predicate ThroughLock(rel: Path) {
    exists i | 0 <= i < |rel| :: rel[i] == "locks" || EndsIn(rel[i], ".lock")
  }

  const META_REGENERATED := {
    "runtime.json", "last-change.json", "stack-state", "services.json", "backup-schedule-config.json",
    "backup-schedule-state.json", "backup-destinations.json"}

  /** A path of the metadata root is taken exactly when there is no reason to
      leave it out. */
  lemma MetaTakesExactly(rel: Path, isDir: bool, artifact: Path -> bool)
    requires rel != []
    ensures DurableMeta(rel, isDir, artifact) <==> forall why: Reason :: !LeftOutOfMeta(why, rel, isDir, artifact)
  {
    SecretsExactly(rel);
    LocksExactly(rel);
    MetaRegeneratedExactly(rel, isDir);
    hide Excluded, IsSecret, Through, ThroughLock, GeneratedMeta, IsMetaRegenerated;
    var out := (why: Reason) => LeftOutOfMeta(why, rel, isDir, artifact);
    assert (forall why :: !out(why))
      <==> !out(Secret) && !out(Log) && !out(Disposable) && !out(Regenerated) && !out(Handle);
  }

  lemma MetaRegeneratedExactly(rel: Path, isDir: bool)
    requires rel != []
    ensures GeneratedMeta(rel, isDir) <==> IsMetaRegenerated(rel, isDir)
  {
    if |rel| == 1 { assert rel == [rel[0]]; }
  }

  lemma LocksExactly(rel: Path)
    ensures (exists part <- rel :: part == "locks" || HasSuffix(part, ".lock")) <==> ThroughLock(rel)
  {
    forall i | 0 <= i < |rel| ensures EndsIn(rel[i], ".lock") <==> HasSuffix(rel[i], ".lock") {
      EndsInExactly(rel[i], ".lock");
    }
    if part :| part in rel && (part == "locks" || HasSuffix(part, ".lock")) {
      var i :| 0 <= i < |rel| && rel[i] == part;
    }
  }

  // ------------------------------------------------------------- along the way

  /** The filter takes `below` and every directory above it. */
  ghost predicate TakenOnTheWay(rel: Path, takes: Filter, below: Path, isDir: bool) {
    forall k | 0 < k <= |below| :: takes(rel + below[..k], k < |below| || isDir)
  }

  lemma OneStepOnTheWay(rel: Path, takes: Filter, below: Path, isDir: bool)
    requires below != []
    ensures TakenOnTheWay(rel, takes, below, isDir)
       <==> takes(rel + [below[0]], |below| > 1 || isDir) && TakenOnTheWay(rel + [below[0]], takes, below[1..], isDir)
  {
    var sub, rest := rel + [below[0]], below[1..];
    assert below[..1] == [below[0]];
    forall k | 0 < k <= |rest| ensures sub + rest[..k] == rel + below[..k + 1] {
      assert [below[0]] + rest[..k] == below[..k + 1];
    }
    if takes(rel + [below[0]], |below| > 1 || isDir) && TakenOnTheWay(sub, takes, rest, isDir) {
      forall k | 0 < k <= |below| ensures takes(rel + below[..k], k < |below| || isDir) {
        if k > 1 { assert sub + rest[..k - 1] == rel + below[..k]; }
      }
    }
    if TakenOnTheWay(rel, takes, below, isDir) {
      forall k | 0 < k <= |rest| ensures takes(sub + rest[..k], k < |rest| || isDir) {
        assert takes(rel + below[..k + 1], k + 1 < |below| || isDir);
      }
    }
  }

  /** What a walk selects at a path: what is there, if it is taken on the way. */
  lemma {:induction false} SelectedExactly(rel: Path, n: Node, takes: Filter, below: Path)
    ensures var found := Selected(rel, n, Everything, below);
      Selected(rel, n, takes, below)
      == if found.Some? && TakenOnTheWay(rel, takes, below, found.value.Dir?) then found else None
    decreases |below|
  {
    if below != [] && n.Dir? && Child(n.entries, below[0]).Some? {
      var child := Child(n.entries, below[0]).value;
      SelectedExactly(rel + [below[0]], child, takes, below[1..]);
      var found := Selected(rel + [below[0]], child, Everything, below[1..]);
      if found.Some? {
        assert |below| > 1 ==> child.Dir?;
        assert |below| == 1 ==> found.value == child;
        OneStepOnTheWay(rel, takes, below, found.value.Dir?);
      }
    }
  }

  // ---------------------------------------------------------- what is backed up

  /** There is no reason to leave out a path of the data root or any directory
      above it. */
  ghost predicate Wanted(below: Path, isDir: bool, artifact: Path -> bool, bundled: set<string>) {
    forall k | 0 < k <= |below| :: NoReason(below[..k], k < |below| || isDir, artifact, bundled)
  }

  ghost predicate NoReason(rel: Path, isDir: bool, artifact: Path -> bool, bundled: set<string>)
    requires rel != []
  {
    forall why: Reason :: !LeftOut(why, rel, isDir, artifact, bundled)
  }

  /** The same of the metadata root. */
  ghost predicate WantedMeta(below: Path, isDir: bool, artifact: Path -> bool) {
    forall k | 0 < k <= |below| :: NoMetaReason(below[..k], k < |below| || isDir, artifact)
  }

  ghost predicate NoMetaReason(rel: Path, isDir: bool, artifact: Path -> bool)
    requires rel != []
  {
    forall why: Reason :: !LeftOutOfMeta(why, rel, isDir, artifact)
  }

  lemma WantedIsTaken(below: Path, isDir: bool, artifact: Path -> bool, bundled: set<string>)
    ensures TakenOnTheWay([], HermesFilter(artifact, bundled), below, isDir)
       <==> Wanted(below, isDir, artifact, bundled)
  {
    forall k | 0 < k <= |below|
      ensures DurableHermes([] + below[..k], k < |below| || isDir, artifact, bundled)
        <==> NoReason(below[..k], k < |below| || isDir, artifact, bundled)
    {
      assert [] + below[..k] == below[..k];
      HermesTakesExactly(below[..k], k < |below| || isDir, artifact, bundled);
    }
    hide DurableHermes, LeftOut, NoReason;
    if Wanted(below, isDir, artifact, bundled) {
      forall k | 0 < k <= |below|
        ensures HermesFilter(artifact, bundled)([] + below[..k], k < |below| || isDir)
      {
        assert NoReason(below[..k], k < |below| || isDir, artifact, bundled);
      }
    }
    if TakenOnTheWay([], HermesFilter(artifact, bundled), below, isDir) {
      forall k | 0 < k <= |below| ensures NoReason(below[..k], k < |below| || isDir, artifact, bundled) {
        assert HermesFilter(artifact, bundled)([] + below[..k], k < |below| || isDir);
      }
    }
  }

  lemma WantedMetaIsTaken(below: Path, isDir: bool, artifact: Path -> bool)
    ensures TakenOnTheWay([], MetaFilter(artifact), below, isDir) <==> WantedMeta(below, isDir, artifact)
  {
    forall k | 0 < k <= |below|
      ensures DurableMeta([] + below[..k], k < |below| || isDir, artifact)
        <==> NoMetaReason(below[..k], k < |below| || isDir, artifact)
    {
      assert [] + below[..k] == below[..k];
      MetaTakesExactly(below[..k], k < |below| || isDir, artifact);
    }
    hide DurableMeta, LeftOutOfMeta, NoMetaReason;
    if WantedMeta(below, isDir, artifact) {
      forall k | 0 < k <= |below| ensures MetaFilter(artifact)([] + below[..k], k < |below| || isDir) {
        assert NoMetaReason(below[..k], k < |below| || isDir, artifact);
      }
    }
    if TakenOnTheWay([], MetaFilter(artifact), below, isDir) {
      forall k | 0 < k <= |below| ensures NoMetaReason(below[..k], k < |below| || isDir, artifact) {
        assert MetaFilter(artifact)([] + below[..k], k < |below| || isDir);
      }
    }
  }

  /** What is at a path of the root, if it is wanted: what a backup must hold. */
  ghost function ToBackUp(n: Node, below: Path, wanted: bool -> bool): Option<Item> {
    var found := Find(n, below);
    if found.None? || !wanted(found.value.Dir?) then None else ItemOf(found.value)
  }

  ghost predicate IsMember(ms: seq<Member>, path: Path, item: Option<Item>) {
    forall other :: Member(path, other) in ms <==> item == Some(other)
  }

  lemma MembersByPath(path: Path, n: Node, takes: Filter, below: Path)
    requires Proper(n)
    ensures var found := Selected([], n, takes, below);
      IsMember(Walk(path, [], n, takes), path + below, if found.Some? then ItemOf(found.value) else None)
  {
    WalkIsFlat(path, [], n, takes);
    FlattenSelects(path, [], n, takes, below);
  }

  lemma HermesToBackUp(hermes: Node, artifact: Path -> bool, bundled: set<string>, below: Path)
    ensures var found := Selected([], hermes, HermesFilter(artifact, bundled), below);
      (if found.Some? then ItemOf(found.value) else None)
      == ToBackUp(hermes, below, isDir => Wanted(below, isDir, artifact, bundled))
  {
    SelectedExactly([], hermes, HermesFilter(artifact, bundled), below);
    WantedIsTaken(below, true, artifact, bundled);
    WantedIsTaken(below, false, artifact, bundled);
    hide Wanted, TakenOnTheWay, DurableHermes;
  }

  lemma MetaToBackUp(meta: Node, artifact: Path -> bool, below: Path)
    ensures var found := Selected([], meta, MetaFilter(artifact), below);
      (if found.Some? then ItemOf(found.value) else None)
      == ToBackUp(meta, below, isDir => WantedMeta(below, isDir, artifact))
  {
    SelectedExactly([], meta, MetaFilter(artifact), below);
    WantedMetaIsTaken(below, true, artifact);
    WantedMetaIsTaken(below, false, artifact);
    hide WantedMeta, TakenOnTheWay, DurableMeta;
  }

  lemma MembersOfEither(hermes: Node, meta: Node, takes: Filter, takesMeta: Filter, below: Path, item: Option<Item>)
    ensures var ms := DurableMembers(hermes, meta, takes, takesMeta);
      && (IsMember(Walk(HERMES, [], hermes, takes), HERMES + below, item) ==> IsMember(ms, HERMES + below, item))
      && (IsMember(Walk(META, [], meta, takesMeta), META + below, item) ==> IsMember(ms, META + below, item))
  {
    WalkIsBelow(HERMES, [], hermes, takes);
    WalkIsBelow(META, [], meta, takesMeta);
    hide Walk;
    assert (HERMES + below)[0] == "hermes" && (META + below)[0] == "meta";
  }

  /** Of either root, a durable backup holds a path exactly when something that can
      be archived is there and there is no reason to leave out the path or a
      directory above it; and then it holds what is there. */
  lemma BackedUpExactly(hermes: Node, meta: Node, artifact: Path -> bool, bundled: set<string>, below: Path)
    requires Proper(hermes) && Proper(meta)
    ensures var ms := DurableMembers(hermes, meta, HermesFilter(artifact, bundled), MetaFilter(artifact));
      && IsMember(ms, HERMES + below, ToBackUp(hermes, below, isDir => Wanted(below, isDir, artifact, bundled)))
      && IsMember(ms, META + below, ToBackUp(meta, below, isDir => WantedMeta(below, isDir, artifact)))
  {
    var takes, takesMeta := HermesFilter(artifact, bundled), MetaFilter(artifact);
    hide Walk, Wanted, WantedMeta, Selected, DurableHermes, DurableMeta, IsMember, DurableMembers, ToBackUp;
    HermesToBackUp(hermes, artifact, bundled, below);
    MetaToBackUp(meta, artifact, below);
    MembersByPath(HERMES, hermes, takes, below);
    MembersByPath(META, meta, takesMeta, below);
    MembersOfEither(hermes, meta, takes, takesMeta, below,
                    ToBackUp(hermes, below, isDir => Wanted(below, isDir, artifact, bundled)));
    MembersOfEither(hermes, meta, takes, takesMeta, below,
                    ToBackUp(meta, below, isDir => WantedMeta(below, isDir, artifact)));
  }

  // -------------------------------------------------------- what comes back

  /** What a restore keeps at a path of the running root, if it is written again
      by the next start: such entries at most one directory deep, except sockets,
      process files and locks. */
  ghost function ToKeep(current: Node, below: Path, regenerated: bool -> bool): Option<Item>
    requires below != []
  {
    var found := Find(current, below);
    if found.None? || !regenerated(found.value.Dir?) || |below| > 2 || Momentary(below, found.value) then None
    else ItemOf(found.value)
  }

  /** Sockets and the like, and files that only mean something to a process. */
  ghost predicate Momentary(below: Path, n: Node)
    requires below != []
  {
    var base := below[|below| - 1];
    n.Special? || (n.File? && (EndsIn(base, ".sock") || EndsIn(base, ".pid") || EndsIn(base, ".lock")))
  }

  lemma PassedOverExactly(below: Path, n: Node)
    requires below != []
    ensures PassedOver(Base(below), n) <==> Momentary(below, n)
  {
    EndsInExactly(Base(below), ".sock");
    EndsInExactly(Base(below), ".pid");
    EndsInExactly(Base(below), ".lock");
  }

  lemma KeptHermes(current: Node, below: Path)
    requires Proper(current) && below != []
    ensures var kept := KeptLayout(current, GeneratedHermes);
      (if below in kept then Some(kept[below]) else None)
      == ToKeep(current, below, isDir => IsRegenerated(below, isDir))
  {
    KeptByPath(current, GeneratedHermes, below);
    GeneratedIsShallow();
    GeneratedKeptExactly(current, GeneratedHermes, below);
    RegeneratedExactly(below, true);
    RegeneratedExactly(below, false);
    var found := Find(current, below);
    if found.Some? { PassedOverExactly(below, found.value); }
    hide GeneratedHermes, IsRegenerated, KeptLayout, PassedOver, Momentary;
  }

  lemma KeptMeta(current: Node, below: Path)
    requires Proper(current) && below != []
    ensures var kept := KeptLayout(current, GeneratedMeta);
      (if below in kept then Some(kept[below]) else None)
      == ToKeep(current, below, isDir => IsMetaRegenerated(below, isDir))
  {
    KeptByPath(current, GeneratedMeta, below);
    GeneratedIsShallow();
    GeneratedKeptExactly(current, GeneratedMeta, below);
    MetaRegeneratedExactly(below, true);
    MetaRegeneratedExactly(below, false);
    var found := Find(current, below);
    if found.Some? { PassedOverExactly(below, found.value); }
    hide GeneratedMeta, IsMetaRegenerated, KeptLayout, PassedOver, Momentary;
  }

  /** What an archived root holds below it. */
  lemma ArchivedByPath(n: Node, takes: Filter, below: Path)
    requires Proper(n) && below != []
    ensures var archived := LayoutOf(n, takes); var found := Selected([], n, takes, below);
      (if below in archived then Some(archived[below]) else None) == if found.Some? then ItemOf(found.value) else None
  {
    if n.Dir? {
      FlattenForestSelects([], [], n.entries, takes, below);
      assert [] + below == below;
    }
  }

  /** `fs` holds at `below` what was backed up, or else what is kept. */
  ghost predicate ComesBack(fs: Layout, below: Path, archived: Option<Item>, kept: Option<Item>) {
    (if below in fs then Some(fs[below]) else None) == if archived.Some? then archived else kept
  }

  /** After a durable backup and its restore over a running system, path by path:
      what there was no reason to leave out is back as it was, what the next start
      writes again is as it is now, and nothing else is there. */
  lemma RestoredByPath(
    hermes: Node, meta: Node, runningHermes: Node, runningMeta: Node, artifact: Path -> bool, bundled: set<string>,
    below: Path)
    requires Proper(hermes) && Proper(meta) && Proper(runningHermes) && Proper(runningMeta) && below != []
    ensures var built := Build(Pruned([], hermes, HermesFilter(artifact, bundled)), runningHermes, GeneratedHermes);
      built.Replaced? ==>
        ComesBack(built.fs, below, ToBackUp(hermes, below, isDir => Wanted(below, isDir, artifact, bundled)),
                  ToKeep(runningHermes, below, isDir => IsRegenerated(below, isDir)))
    ensures var built := Build(Pruned([], meta, MetaFilter(artifact)), runningMeta, GeneratedMeta);
      built.Replaced? ==>
        ComesBack(built.fs, below, ToBackUp(meta, below, isDir => WantedMeta(below, isDir, artifact)),
                  ToKeep(runningMeta, below, isDir => IsMetaRegenerated(below, isDir)))
  {
    DurableIsNotGenerated(artifact, bundled);
    HermesToBackUp(hermes, artifact, bundled, below);
    MetaToBackUp(meta, artifact, below);
    ArchivedByPath(hermes, HermesFilter(artifact, bundled), below);
    ArchivedByPath(meta, MetaFilter(artifact), below);
    KeptHermes(runningHermes, below);
    KeptMeta(runningMeta, below);
    hide ToBackUp, ToKeep, Wanted, WantedMeta, Selected, LayoutOf, KeptLayout, Build, Exclusive, Pruned;
    ReplacementExactly(hermes, runningHermes, HermesFilter(artifact, bundled), GeneratedHermes);
    ReplacementExactly(meta, runningMeta, MetaFilter(artifact), GeneratedMeta);
  }
}
