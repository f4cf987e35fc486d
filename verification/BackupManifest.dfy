/** operator/backup_archive.go: the manifest of an archive, and the inspection of
    a whole archive with its manifest. */
module BackupManifest {
  import opened Wrappers
  import opened BackupTree
  import opened BackupArchive

  const MAX_MANIFEST_SIZE := 64 * 1024

  const LOCHO: Path := ["locho"]

  datatype Manifest = Manifest(schema: int, kind: string, components: seq<Path>)

  /** An entry of the archive; `content` is its data read as a manifest. */
  datatype Record = Record(member: Member, content: Option<Manifest>)

  predicate IsManifest(r: Record) {
    r.member.path == MANIFEST
  }

  predicate IsData(r: Record) {
    r.member.path != [] && !IsManifest(r)
  }

  function ReadManifest(r: Record): Option<Manifest> {
    if r.member.item.FileItem? && Size(r.member.item) <= MAX_MANIFEST_SIZE then r.content else None
  }

  function DataOf(rs: seq<Record>): seq<Member> {
    if rs == [] then []
    else
      var last := rs[|rs| - 1];
      DataOf(rs[..|rs| - 1]) + if IsData(last) then [last.member] else []
  }

  /** Whether a member may stand where the manifest is, or is not yet, known. */
  predicate Allowed(manifest: Option<Manifest>, path: Path) {
    if manifest.None? || manifest.value.schema == 1 then UnderComponent([HERMES, META, LOCHO], path)
    else UnderComponent(manifest.value.components, path)
  }

  predicate Supported(m: Manifest, dataBefore: bool) {
    m.schema == 1 || (m.schema == 2 && m.kind in {"durable", "rollback"} && !dataBefore)
  }

  /** Record `k` is the one manifest, and every member may stand where it is. */
  ghost predicate Placed(rs: seq<Record>, k: nat, manifest: Manifest) {
    && k < |rs| && IsManifest(rs[k]) && ReadManifest(rs[k]) == Some(manifest)
    && (forall i | 0 <= i < |rs| && i != k :: !IsManifest(rs[i]))
    && (forall i | 0 <= i < k && IsData(rs[i]) :: Allowed(None, rs[i].member.path))
    && (forall i | k < i < |rs| && IsData(rs[i]) :: Allowed(Some(manifest), rs[i].member.path))
  }

  /** One manifest of a supported kind, before the data unless it is of the first
      schema, and members that are allowed and within the limits. */
  ghost predicate Acceptable(rs: seq<Record>, manifest: Manifest) {
    && WithinLimits(DataOf(rs))
    && exists k :: Placed(rs, k, manifest) && Supported(manifest, exists i | 0 <= i < k :: IsData(rs[i]))
  }

  /** What the loop knows after some records. */
  ghost predicate Seen(rs: seq<Record>, manifest: Option<Manifest>, k: nat, dataBefore: bool) {
    if manifest.Some? then
      Placed(rs, k, manifest.value) && (dataBefore <==> exists i | 0 <= i < k :: IsData(rs[i]))
    else
      && (forall i | 0 <= i < |rs| :: !IsManifest(rs[i]))
      && (forall i | 0 <= i < |rs| && IsData(rs[i]) :: Allowed(None, rs[i].member.path))
      && (dataBefore <==> exists i | 0 <= i < |rs| :: IsData(rs[i]))
  }

  /** inspectRestoreArchive */
  method InspectArchive(rs: seq<Record>) returns (r: Option<Manifest>)
    ensures r.Some? ==> Acceptable(rs, r.value)
    ensures r.None? ==> forall m :: !Acceptable(rs, m)
  {
    var manifest: Option<Manifest> := None;
    ghost var k := 0;
    var dataBefore := false;
    var members, total := 0, 0;
    hide Seen, WithinLimits, Acceptable, ReadManifest, DataOf, Allowed, SafeLink, SafeMember;
    SeenNothing();
    assert rs[..0] == [];
    for i := 0 to |rs|
      invariant Seen(rs[..i], manifest, k, dataBefore)
      invariant WithinLimits(DataOf(rs[..i])) && members == |DataOf(rs[..i])| && total == TotalSize(DataOf(rs[..i]))
    {
      var record := rs[i];
      OneMore(rs, i);
      SeenNext(rs, i, manifest, k, dataBefore);
      if record.member.path == [] { continue; }
      if record.member.path == MANIFEST {
        if manifest.Some? { return None; }
        manifest := ReadManifest(record);
        if manifest.None? { return None; }
        k := i;
        continue;
      }
      LimitsNext(DataOf(rs[..i]), record.member);
      members := members + 1;
      var m := record.member;
      if members > MAX_MEMBERS || Size(m.item) > MAX_MEMBER_SIZE || total > MAX_TOTAL_SIZE - Size(m.item) {
        return None;
      }
      total := total + Size(m.item);
      if !SafeMember(m.path) || !Allowed(manifest, m.path) { return None; }
      if manifest.None? { dataBefore := true; }
      if m.item.LinkItem? {
        if !SafeLink(m.path, m.item.target) { return None; }
      }
    }
    assert rs[..|rs|] == rs;
    SeenAll(rs, manifest, k, dataBefore);
    if manifest.None? || !Supported(manifest.value, dataBefore) { return None; }
    return manifest;
  }

  /** A prefix that no archive can have. */
  ghost predicate Hopeless(rs: seq<Record>, i: nat)
    requires i <= |rs|
  {
    forall m :: !Acceptable(rs, m)
  }

  lemma {:induction false} DataOfPrefix(rs: seq<Record>, n: nat)
    requires n <= |rs|
    ensures exists rest :: DataOf(rs) == DataOf(rs[..n]) + rest
    decreases |rs| - n
  {
    if n == |rs| {
      assert rs[..n] == rs && DataOf(rs) == DataOf(rs) + [];
    } else {
      DataOfPrefix(rs, n + 1);
      var rest :| DataOf(rs) == DataOf(rs[..n + 1]) + rest;
      assert rs[..n + 1][..n] == rs[..n];
      var one := if IsData(rs[n]) then [rs[n].member] else [];
      assert DataOf(rs) == DataOf(rs[..n]) + (one + rest);
    }
  }

  /** The limits are passed for good once they are passed. */
  lemma OneMore(rs: seq<Record>, i: nat)
    requires i < |rs|
    ensures DataOf(rs[..i + 1]) == if IsData(rs[i]) then DataOf(rs[..i]) + [rs[i].member] else DataOf(rs[..i])
    ensures !WithinLimits(DataOf(rs[..i + 1])) ==> Hopeless(rs, i + 1)
  {
    assert rs[..i + 1][..i] == rs[..i];
    assert DataOf(rs[..i]) + [] == DataOf(rs[..i]);
    DataOfPrefix(rs, i + 1);
    var rest :| DataOf(rs) == DataOf(rs[..i + 1]) + rest;
    PrefixWithinLimits(DataOf(rs[..i + 1]), rest);
  }

  lemma SeenNothing()
    ensures Seen([], None, 0, false) && DataOf([]) == [] && WithinLimits([])
  {
  }

  lemma LimitsNext(ms: seq<Member>, m: Member)
    requires WithinLimits(ms) && m.path != []
    ensures WithinLimits(ms + [m]) <==>
      |ms| + 1 <= MAX_MEMBERS && Size(m.item) <= MAX_MEMBER_SIZE && TotalSize(ms) <= MAX_TOTAL_SIZE - Size(m.item)
      && SafeMember(m.path) && SafeItem(m)
    ensures TotalSize(ms + [m]) == TotalSize(ms) + Size(m.item)
  {
    assert (ms + [m])[..|ms|] == ms;
    assert m in ms + [m];
  }

  /** Where the next record leads. */
  lemma SeenNext(rs: seq<Record>, i: nat, manifest: Option<Manifest>, k: nat, dataBefore: bool)
    requires i < |rs| && Seen(rs[..i], manifest, k, dataBefore)
    ensures rs[i].member.path == [] ==> Seen(rs[..i + 1], manifest, k, dataBefore)
    ensures IsManifest(rs[i]) && manifest.None? && ReadManifest(rs[i]).Some? ==>
      Seen(rs[..i + 1], ReadManifest(rs[i]), i, dataBefore)
    ensures IsManifest(rs[i]) && (manifest.Some? || ReadManifest(rs[i]).None?) ==> Hopeless(rs, i)
    ensures IsData(rs[i]) && Allowed(manifest, rs[i].member.path) ==>
      Seen(rs[..i + 1], manifest, k, dataBefore || manifest.None?)
    ensures IsData(rs[i]) && !Allowed(manifest, rs[i].member.path) ==> Hopeless(rs, i)
  {
    var before, next := rs[..i], rs[..i + 1];
    assert forall j | 0 <= j < i :: before[j] == rs[j] && next[j] == rs[j];
    hide Allowed, ReadManifest, WithinLimits;
    if IsManifest(rs[i]) && (manifest.Some? || ReadManifest(rs[i]).None?) {
      forall m ensures !Acceptable(rs, m) { NoneIsPlaced(rs, i, manifest, k, m); }
    }
    if IsData(rs[i]) && !Allowed(manifest, rs[i].member.path) {
      forall m ensures !Acceptable(rs, m) { NoneIsPlaced(rs, i, manifest, k, m); }
    }
    if IsData(rs[i]) && manifest.None? { assert IsData(next[i]); }
  }

  lemma NoneIsPlaced(rs: seq<Record>, i: nat, manifest: Option<Manifest>, k: nat, m: Manifest)
    requires i < |rs|
    requires if manifest.Some? then Placed(rs[..i], k, manifest.value) else forall j | 0 <= j < i :: !IsManifest(rs[j])
    requires || (IsManifest(rs[i]) && (manifest.Some? || ReadManifest(rs[i]).None?))
             || (IsData(rs[i]) && !Allowed(manifest, rs[i].member.path))
    ensures !Acceptable(rs, m)
  {
    hide Allowed, ReadManifest, WithinLimits;
    assert manifest.Some? ==> rs[..i][k] == rs[k];
  }

  lemma SeenAll(rs: seq<Record>, manifest: Option<Manifest>, k: nat, dataBefore: bool)
    requires Seen(rs, manifest, k, dataBefore) && WithinLimits(DataOf(rs))
    ensures if manifest.Some? && Supported(manifest.value, dataBefore) then Acceptable(rs, manifest.value)
            else forall m :: !Acceptable(rs, m)
  {
    hide Allowed, ReadManifest, WithinLimits;
  }

  // --------------------------------------------------------- in plain terms

  /** A file called manifest.json of at most 64 KiB that reads as `manifest`. */
  predicate HoldsManifest(r: Record, manifest: Manifest) {
    && r.member.path == ["manifest.json"] && r.content == Some(manifest)
    && r.member.item.FileItem? && |r.member.item.data| <= 65536
  }

  /** Below one of the three roots of a release that had no component list, or
      below a component of the list. */
  predicate Under(manifest: Manifest, path: Path)
    requires path != []
  {
    if manifest.schema == 1 then path[0] == "hermes" || path[0] == "meta" || path[0] == "locho"
    else exists i | 0 <= i < |manifest.components| :: manifest.components[i] <= path
  }

  /** Record `k` is the one manifest, of the first schema or of the second and then
      of a known kind and before all data, and what it allows is all there is. */
  ghost predicate OneManifest(rs: seq<Record>, k: nat, manifest: Manifest) {
    && k < |rs| && HoldsManifest(rs[k], manifest)
    && (forall i | 0 <= i < |rs| && i != k :: rs[i].member.path != ["manifest.json"])
    && (forall i | 0 <= i < |rs| && i != k && rs[i].member.path != [] :: Under(manifest, rs[i].member.path))
    && (manifest.schema == 1 || (manifest.schema == 2 && (manifest.kind == "durable" || manifest.kind == "rollback")))
    && (manifest.schema == 2 ==> forall i | 0 <= i < k :: rs[i].member.path == [])
  }

  lemma UnderRoots(path: Path)
    requires path != []
    ensures UnderComponent([HERMES, META, LOCHO], path)
       <==> path[0] == "hermes" || path[0] == "meta" || path[0] == "locho"
  {
    var roots := [HERMES, META, LOCHO];
    assert roots[0] == HERMES && roots[1] == META && roots[2] == LOCHO;
    assert forall name :: [name] <= path <==> path[0] == name;
  }

  lemma PlacedExactly(rs: seq<Record>, k: nat, manifest: Manifest)
    ensures Placed(rs, k, manifest) && Supported(manifest, exists i | 0 <= i < k :: IsData(rs[i]))
       <==> OneManifest(rs, k, manifest)
  {
    forall i | 0 <= i < |rs| && rs[i].member.path != []
      ensures UnderComponent([HERMES, META, LOCHO], rs[i].member.path)
         <==> rs[i].member.path[0] == "hermes" || rs[i].member.path[0] == "meta" || rs[i].member.path[0] == "locho"
    {
      UnderRoots(rs[i].member.path);
    }
  }

  /** What an accepted archive is, with every name and number written out. */
  lemma AcceptableExactly(rs: seq<Record>, manifest: Manifest)
    ensures Acceptable(rs, manifest) <==> WithinLimits(DataOf(rs)) && exists k :: OneManifest(rs, k, manifest)
  {
    forall k: nat
      ensures Placed(rs, k, manifest) && Supported(manifest, exists i | 0 <= i < k :: IsData(rs[i]))
         <==> OneManifest(rs, k, manifest)
    {
      PlacedExactly(rs, k, manifest);
    }
    hide Placed, OneManifest, WithinLimits;
  }

  // ------------------------------------------------ archives of this release

  function Records(ms: seq<Member>): seq<Record> {
    seq(|ms|, i requires 0 <= i < |ms| => Record(ms[i], None))
  }

  lemma {:induction false} DataOfRecords(first: Record, ms: seq<Member>)
    requires IsManifest(first) && forall m <- ms :: m.path != [] && m.path != MANIFEST
    ensures DataOf([first] + Records(ms)) == ms
  {
    var rs := [first] + Records(ms);
    if ms == [] {
      assert rs == [first] && rs[..0] == [];
    } else {
      var before := ms[..|ms| - 1];
      assert rs[..|rs| - 1] == [first] + Records(before);
      DataOfRecords(first, before);
      assert rs[|rs| - 1] == Record(ms[|ms| - 1], None) && ms[|ms| - 1] in ms;
      assert ms == before + [ms[|ms| - 1]];
    }
  }

  /** A manifest of this release, of either kind. */
  predicate BeginsWith(first: Record, manifest: Manifest) {
    && HoldsManifest(first, manifest)
    && manifest.schema == 2 && (manifest.kind == "durable" || manifest.kind == "rollback")
  }

  predicate OnlyData(ms: seq<Member>) {
    forall m <- ms :: m.path != [] && m.path != MANIFEST
  }

  lemma DataComesAfter(first: Record, ms: seq<Member>)
    requires IsManifest(first) && OnlyData(ms)
    ensures var rs := [first] + Records(ms);
      rs[0] == first && forall i | 0 < i < |rs| :: rs[i].member == ms[i - 1] && IsData(rs[i])
  {
    forall i | 0 <= i < |ms| ensures Records(ms)[i].member == ms[i] && IsData(Records(ms)[i]) { assert ms[i] in ms; }
  }

  lemma ReadableIsPlaced(first: Record, manifest: Manifest, ms: seq<Member>)
    requires BeginsWith(first, manifest) && OnlyData(ms) && Readable(manifest.components, ms)
    ensures Placed([first] + Records(ms), 0, manifest)
  {
    var rs := [first] + Records(ms);
    DataComesAfter(first, ms);
    hide WithinLimits, ReadManifest, UnderComponent;
    forall i | 0 < i < |rs| ensures Allowed(Some(manifest), rs[i].member.path) {
      assert ms[i - 1] in ms;
    }
  }

  lemma PlacedIsReadable(first: Record, manifest: Manifest, ms: seq<Member>, k: nat)
    requires BeginsWith(first, manifest) && OnlyData(ms) && WithinLimits(ms)
    requires Placed([first] + Records(ms), k, manifest)
    ensures Readable(manifest.components, ms)
  {
    var rs := [first] + Records(ms);
    DataComesAfter(first, ms);
    hide WithinLimits, ReadManifest, UnderComponent;
    assert k == 0;
    forall i | 0 <= i < |ms| ensures UnderComponent(manifest.components, ms[i].path) {
      assert rs[i + 1].member == ms[i] && IsData(rs[i + 1]);
    }
  }

  /** An archive that begins with a manifest of the second schema is accepted, and
      with that manifest, exactly when what follows it is readable for the
      components that it names. */
  lemma ManifestThenData(first: Record, manifest: Manifest, ms: seq<Member>)
    requires BeginsWith(first, manifest) && OnlyData(ms)
    ensures Acceptable([first] + Records(ms), manifest) <==> Readable(manifest.components, ms)
  {
    var rs := [first] + Records(ms);
    DataOfRecords(first, ms);
    hide WithinLimits, ReadManifest, UnderComponent, DataOf, Placed, Records;
    if Readable(manifest.components, ms) {
      ReadableIsPlaced(first, manifest, ms);
    }
    if Acceptable(rs, manifest) {
      var k :| Placed(rs, k, manifest);
      PlacedIsReadable(first, manifest, ms, k);
    }
  }
}
