/** operator/backup_archive.go and backup.go: the archive writer, the reader that
    checks an archive, and extraction.  The tar format is a list of members after
    a manifest that names the component roots. */
module BackupArchive {
  import opened Wrappers
  import opened BackupTree

  const MAX_MEMBERS := 100000
  const MAX_MEMBER_SIZE := 0x4000_0000
  const MAX_TOTAL_SIZE := 0x2_0000_0000
  const MAX_DEPTH := 32

  const MANIFEST: Path := ["manifest.json"]

  // ------------------------------------------------------------------- names

  predicate CleanText(text: string) {
    '\0' !in text && '\r' !in text && '\n' !in text
  }

  predicate SafeSegment(segment: string) {
    segment != "" && segment != "." && segment != ".." && '/' !in segment && CleanText(segment)
  }

  /** safeArchiveMember */
  predicate SafeMember(path: Path) {
    0 < |path| <= MAX_DEPTH && forall segment <- path :: SafeSegment(segment)
  }

  /** The clean form of `parts` followed from directory `at`; None climbs above
      the root of the archive. */
  function Resolve(at: Path, parts: seq<string>): Option<Path>
    decreases |parts|
  {
    if parts == [] then Some(at)
    else if parts[0] == "" || parts[0] == "." then Resolve(at, parts[1..])
    else if parts[0] == ".." then (if at == [] then None else Resolve(at[..|at| - 1], parts[1..]))
    else Resolve(at + [parts[0]], parts[1..])
  }

  /** safeRelativeSymlink: the target stays under the first segment of the name. */
  predicate SafeLink(path: Path, target: Target)
    requires path != []
  {
    && target.parts != [""] && target.parts != [] && !target.absolute
    && (forall part <- target.parts :: CleanText(part))
    && var end := Resolve(path[..|path| - 1], target.parts);
       end.Some? && end.value != [] && end.value[0] == path[0]
  }

  function Size(item: Item): nat {
    if item.FileItem? then |item.data| else 0
  }

  predicate SafeItem(m: Member)
    requires m.path != []
  {
    m.item.LinkItem? ==> SafeLink(m.path, m.item.target)
  }

  // ------------------------------------------------------------- the writer

  /** What the limits allow to be written: an account of a whole archive. */
  predicate WithinLimits(ms: seq<Member>) {
    && |ms| <= MAX_MEMBERS && TotalSize(ms) <= MAX_TOTAL_SIZE
    && forall m <- ms :: SafeMember(m.path) && SafeItem(m) && Size(m.item) <= MAX_MEMBER_SIZE
  }

  function TotalSize(ms: seq<Member>): nat {
    if ms == [] then 0 else TotalSize(ms[..|ms| - 1]) + Size(ms[|ms| - 1].item)
  }

  lemma {:induction false} TotalSizeGrows(a: seq<Member>, b: seq<Member>)
    ensures TotalSize(a) <= TotalSize(a + b)
  {
    if b == [] {
      assert a + b == a;
    } else {
      assert (a + b)[..|a + b| - 1] == a + b[..|b| - 1];
      TotalSizeGrows(a, b[..|b| - 1]);
    }
  }

  class Writer {
    var written: seq<Member>
    var members: nat
    var total: nat

    ghost predicate Valid()
      reads this
    {
      WithinLimits(written) && members == |written| && total == TotalSize(written)
    }

    constructor ()
      ensures Valid() && written == []
    {
      written, members, total := [], 0, 0;
    }

    /** backupArchiveLimits.add and the header that follows it; false is an error. */
    method Add(m: Member) returns (ok: bool)
      requires Valid()
      modifies this
      ensures ok == WithinLimits(old(written) + [m])
      ensures ok ==> Valid() && written == old(written) + [m]
    {
      assert (written + [m])[..|written|] == written;
      assert m in written + [m];
      if !SafeMember(m.path) { return false; }
      if m.item.LinkItem? {
        if !SafeLink(m.path, m.item.target) { return false; }
      }
      if members >= MAX_MEMBERS || Size(m.item) > MAX_MEMBER_SIZE || total > MAX_TOTAL_SIZE - Size(m.item) {
        return false;
      }
      members, total := members + 1, total + Size(m.item);
      written := written + [m];
      return true;
    }

    /** appendDurableTree: a pruned walk that stops at the first error. */
    method Append(path: Path, rel: Path, n: Node, takes: Filter) returns (ok: bool)
      requires Valid() && path != []
      modifies this
      ensures ok == WithinLimits(old(written) + Walk(path, rel, n, takes))
      ensures ok ==> Valid() && written == old(written) + Walk(path, rel, n, takes)
      decreases n
    {
      match n
      case File(data) =>
        ok := Add(Member(path, FileItem(data)));
      case Link(target) =>
        ok := Add(Member(path, LinkItem(target)));
      case Special =>
        ok := true;
        assert written + [] == written;
      case Dir(entries) =>
        ghost var before := written;
        ghost var inner := WalkForest(path, rel, entries, takes);
        assert before + ([Member(path, DirItem)] + inner) == before + [Member(path, DirItem)] + inner;
        PrefixWithinLimits(before + [Member(path, DirItem)], inner);
        ok := Add(Member(path, DirItem));
        if ok {
          ok := AppendForest(path, rel, entries, takes);
        }
    }

    method AppendForest(path: Path, rel: Path, f: Forest, takes: Filter) returns (ok: bool)
      requires Valid() && path != []
      modifies this
      ensures ok == WithinLimits(old(written) + WalkForest(path, rel, f, takes))
      ensures ok ==> Valid() && written == old(written) + WalkForest(path, rel, f, takes)
      decreases f
    {
      match f
      case Nil =>
        ok := true;
        assert written + [] == written;
      case Entry(name, n, rest) =>
        ghost var before := written;
        ghost var first := if takes(rel + [name], n.Dir?) then Walk(path + [name], rel + [name], n, takes) else [];
        ghost var others := WalkForest(path, rel, rest, takes);
        assert before + (first + others) == before + first + others;
        PrefixWithinLimits(before + first, others);
        ok := true;
        if takes(rel + [name], n.Dir?) {
          ok := Append(path + [name], rel + [name], n, takes);
        }
        if ok {
          assert written == before + first;
          ok := AppendForest(path, rel, rest, takes);
        }
    }
  }

  lemma PrefixWithinLimits(a: seq<Member>, b: seq<Member>)
    ensures WithinLimits(a + b) ==> WithinLimits(a)
  {
    TotalSizeGrows(a, b);
    assert forall i | 0 <= i < |a| :: a[i] in a + b;
  }

  // -------------------------------------------------------------- the reader

  /** allowedArchiveMemberForManifest, without the check of the name itself. */
  predicate UnderComponent(components: seq<Path>, path: Path) {
    exists i | 0 <= i < |components| :: components[i] <= path
  }

  /** What inspectRestoreArchive accepts after the manifest. */
  predicate Readable(components: seq<Path>, ms: seq<Member>) {
    WithinLimits(ms) && forall m <- ms :: UnderComponent(components, m.path) && m.path != MANIFEST
  }

  /** inspectRestoreArchive */
  method Inspect(components: seq<Path>, ms: seq<Member>) returns (ok: bool)
    ensures ok == Readable(components, ms)
  {
    var members, total := 0, 0;
    for i := 0 to |ms|
      invariant members == i && total == TotalSize(ms[..i])
      invariant Readable(components, ms[..i])
    {
      var m := ms[i];
      assert m in ms && ms[..i + 1][..i] == ms[..i];
      Longer(ms, i + 1);
      if m.path == MANIFEST || m.path == [] { return false; }
      members := members + 1;
      if members > MAX_MEMBERS || Size(m.item) > MAX_MEMBER_SIZE || total > MAX_TOTAL_SIZE - Size(m.item) {
        return false;
      }
      total := total + Size(m.item);
      if !SafeMember(m.path) { return false; }
      if !UnderComponent(components, m.path) { return false; }
      if m.item.LinkItem? {
        if !SafeLink(m.path, m.item.target) { return false; }
      }
    }
    assert ms[..|ms|] == ms;
    return true;
  }

  lemma Longer(ms: seq<Member>, n: nat)
    requires n <= |ms|
    ensures TotalSize(ms[..n]) <= TotalSize(ms)
  {
    assert ms[..n] + ms[n..] == ms;
    TotalSizeGrows(ms[..n], ms[n..]);
  }

  lemma {:induction false} WalkIsBelow(path: Path, rel: Path, n: Node, takes: Filter)
    ensures forall m <- Walk(path, rel, n, takes) :: path <= m.path
    decreases n
  {
    if n.Dir? {
      WalkForestIsBelow(path, rel, n.entries, takes);
    }
  }

  lemma {:induction false} WalkForestIsBelow(path: Path, rel: Path, f: Forest, takes: Filter)
    ensures forall m <- WalkForest(path, rel, f, takes) :: path <= m.path
    decreases f
  {
    if f.Entry? {
      WalkForestIsBelow(path, rel, f.rest, takes);
      WalkIsBelow(path + [f.name], rel + [f.name], f.node, takes);
      assert path <= path + [f.name];
    }
  }

  const HERMES: Path := ["hermes"]
  const META: Path := ["meta"]

  /** The members of a durable backup. */
  function DurableMembers(hermes: Node, meta: Node, takesHermes: Filter, takesMeta: Filter): seq<Member> {
    Walk(HERMES, [], hermes, takesHermes) + Walk(META, [], meta, takesMeta)
  }

  /** Every archive that the writer finishes is one that the reader accepts, and
      the other way round. */
  lemma WriterAndReaderAgree(hermes: Node, meta: Node, takesHermes: Filter, takesMeta: Filter)
    ensures WithinLimits(DurableMembers(hermes, meta, takesHermes, takesMeta))
       <==> Readable([HERMES, META], DurableMembers(hermes, meta, takesHermes, takesMeta))
  {
    WalkIsBelow(HERMES, [], hermes, takesHermes);
    WalkIsBelow(META, [], meta, takesMeta);
    var components := [HERMES, META];
    forall m <- DurableMembers(hermes, meta, takesHermes, takesMeta)
      ensures UnderComponent(components, m.path) && m.path != MANIFEST
    {
      assert m.path[0] == "hermes" || m.path[0] == "meta";
      assert components[if m in Walk(HERMES, [], hermes, takesHermes) then 0 else 1] <= m.path;
      assert |m.path[0]| < |MANIFEST[0]|;
    }
  }

  /** createBackup's archive: both roots through one set of limits. */
  method CreateArchive(hermes: Node, meta: Node, takesHermes: Filter, takesMeta: Filter)
    returns (ok: bool, members: seq<Member>)
    ensures ok == WithinLimits(DurableMembers(hermes, meta, takesHermes, takesMeta))
    ensures ok ==> members == DurableMembers(hermes, meta, takesHermes, takesMeta) && Readable([HERMES, META], members)
  {
    members := [];
    var writer := new Writer();
    PrefixWithinLimits(Walk(HERMES, [], hermes, takesHermes), Walk(META, [], meta, takesMeta));
    assert writer.written + Walk(HERMES, [], hermes, takesHermes) == Walk(HERMES, [], hermes, takesHermes);
    ok := writer.Append(HERMES, [], hermes, takesHermes);
    if ok {
      ok := writer.Append(META, [], meta, takesMeta);
      if ok {
        WriterAndReaderAgree(hermes, meta, takesHermes, takesMeta);
        members := writer.written;
      }
    }
  }
}
