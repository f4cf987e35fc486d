/** operator/backup_prune.go and the end of operator/backup.go: creating and
    pruning durable archives as the source does, where any file operation may
    fail or be the last before a crash. */
module BackupPrune {
  import opened Wrappers
  import opened Environment
  import opened FileStore
  import opened BackupRetention

  const DEFAULT_RETENTION := 5
  const DEFAULT_MAX_BYTES := 10 * 1024 * 1024 * 1024

  datatype PruneResult = PruneDone | NoneVerifies | PruneFailed | PruneDied

  datatype Step = Backup(name: string, size: nat, digest: string, now: int) | PruneTo(keep: int, maxBytes: int)

  ghost predicate Distinct(items: seq<Item>) {
    forall i, j | 0 <= i < j < |items| :: items[i].name != items[j].name
  }

  /** `items` is the folder's archives, each once, as they were read. */
  ghost predicate Lists(f: Folder, items: seq<Item>, m: Misread) {
    && (forall i | 0 <= i < |items| ::
          items[i].name in f.archives && items[i].name !in m.missed && items[i] == ItemOf(f, items[i].name, m))
    && Distinct(items)
    && forall name <- f.archives | name !in m.missed :: Listed(items, name)
  }

  ghost predicate Listed(items: seq<Item>, name: string) {
    exists i | 0 <= i < |items| :: items[i].name == name
  }

  /** Nothing was added or changed. */
  ghost predicate Shrinks(f: Folder, g: Folder) {
    && (forall name <- g.archives :: name in f.archives && g.archives[name] == f.archives[name])
    && forall name <- g.metadata :: name in f.metadata && g.metadata[name] == f.metadata[name]
  }

  /** Item `low` is the newest one whose verification did not fail; `unread` are
      archives whose verification met a read error. */
  ghost predicate NewestVerified(f: Folder, items: seq<Item>, low: nat, unread: set<string>) {
    && low < |items| && Verifies(f, items[low].name)
    && forall i | 0 <= i < low :: Verifies(f, items[i].name) ==> items[i].name in unread
  }

  /** What the removal of left-over metadata leaves of `f`: metadata is left over
      unless its archive was listed. */
  ghost predicate Swept(f: Folder, g: Folder, m: Misread) {
    && g.archives == f.archives && Shrinks(f, g)
    && forall name <- f.metadata ::
         name in g.metadata <==> (name in f.archives && name !in m.missed) || name in m.spared
  }

  /** What the removal of listed archives leaves of `f`: a run of them, and
      whatever was not listed. */
  ghost predicate Cut(f: Folder, g: Folder, items: seq<Item>, low: nat, high: nat) {
    && low <= high <= |items| && Shrinks(f, g)
    && (forall i | 0 <= i < |items| :: items[i].name in g.archives <==> low <= i < high)
    && (forall name <- f.archives | !Listed(items, name) :: name in g.archives)
    && forall name <- f.metadata :: name in g.metadata <==> (Listed(items, name) ==> name in g.archives)
  }

  /** What a prune leaves of `f`. */
  ghost predicate Pruned(f: Folder, g: Folder, items: seq<Item>, m: Misread, low: nat, high: nat) {
    && low <= high <= |items| && Shrinks(f, g)
    && (forall i | 0 <= i < |items| :: items[i].name in g.archives <==> low <= i < high)
    && (forall name <- f.archives | name in m.missed :: name in g.archives)
    && forall name <- f.metadata ::
         name in g.metadata <==>
         if name in f.archives && name !in m.missed then name in g.archives else name in m.spared
  }

  lemma SweptAndCut(f: Folder, g: Folder, h: Folder, items: seq<Item>, m: Misread, low: nat, high: nat)
    requires Lists(f, items, m) && Swept(f, g, m) && Cut(g, h, items, low, high)
    ensures Pruned(f, h, items, m, low, high)
  {
    forall name <- f.archives ensures Listed(items, name) <==> name !in m.missed { }
    forall name | Listed(items, name) ensures name in f.archives && name !in m.missed { }
  }

  class BackupFolder {
    const calm: bool
    var archives: map<string, Archive>
    var metadata: map<string, Metadata>

    ghost function OnDisk(): Folder
      reads this
    {
      Folder(archives, metadata)
    }

    constructor (calm: bool)
      ensures OnDisk() == Folder(map[], map[]) && this.calm == calm
    {
      this.calm, archives, metadata := calm, map[], map[];
    }

    /** removeBackupItem: the archive first, then its metadata. */
    method RemoveItem(name: string) returns (r: IoResult)
      modifies this
      ensures Shrinks(old(OnDisk()), OnDisk())
      ensures old(archives).Keys - {name} <= archives.Keys && old(metadata).Keys - {name} <= metadata.Keys
      ensures r.Done? ==> archives == old(archives) - {name} && metadata == old(metadata) - {name}
      ensures calm ==> r.Done?
    {
      r := Chance(calm);
      if !r.Done? { return; }
      archives := archives - {name};
      r := Chance(calm);
      if !r.Done? { return; }
      metadata := metadata - {name};
    }

    /** The end of a backup: the finished archive is renamed to a name that no
        archive has, then its metadata is written. */
    method Publish(name: string, size: nat, digest: string, now: int) returns (r: IoResult)
      modifies this
      ensures forall other | other != name || name in old(archives) ::
                (other in archives <==> other in old(archives)) &&
                (other in archives ==> archives[other] == old(archives)[other])
      ensures forall other | other != name || name in old(archives) ::
                (other in metadata <==> other in old(metadata)) &&
                (other in metadata ==> metadata[other] == old(metadata)[other])
      ensures r.Done? ==>
                name !in old(archives) && Verifies(OnDisk(), name) && archives[name] == Archive(size, digest, now)
      ensures calm ==> (r.Done? <==> name !in old(archives)) && !r.Died?
    {
      if name in archives { return Failed; }
      r := Chance(calm);
      if !r.Done? { return; }
      archives := archives[name := Archive(size, digest, now)];
      r := Chance(calm);
      if !r.Done? {
        var removed := Chance(calm);
        if r.Failed? && removed.Done? { archives := archives - {name}; }
        return;
      }
      var length: nat :| true;
      metadata := metadata[name := Metadata(length, digest, Some(now), true)];
      return Done;
    }

    /** One archive of the listing, as far as it can be read. */
    method ReadItem(name: string, ghost m0: Misread) returns (item: Option<Item>, ghost m: Misread)
      requires name in archives && name !in m0.missed && name !in m0.undated && name !in m0.unsized
      ensures m.missed == (if item.None? then m0.missed + {name} else m0.missed) && m.spared == m0.spared
      ensures m.undated - {name} == m0.undated && m.unsized - {name} == m0.unsized
      ensures item.Some? ==> item.value == ItemOf(OnDisk(), name, m)
      ensures calm ==> item.Some? && m == m0
    {
      m := m0;
      var found := Chance(calm);
      var dated := Chance(calm);
      var sized := Chance(calm);
      if !found.Done? { return None, m.(missed := m.missed + {name}); }
      var archive := archives[name];
      var read := Item(name, archive.modified, archive.size);
      if name in metadata && dated.Done? && metadata[name].created.Some? {
        read := read.(created := metadata[name].created.value);
      }
      if name in metadata && sized.Done? { read := read.(size := archive.size + metadata[name].size); }
      m := m.(undated := if dated.Done? then m.undated else m.undated + {name},
              unsized := if sized.Done? then m.unsized else m.unsized + {name});
      item := Some(read);
    }

    /** Lists the archives; what cannot be read of one is passed over. */
    method ListItems() returns (items: seq<Item>, ghost m: Misread)
      ensures Lists(OnDisk(), items, m) && m.spared == {} && (calm ==> m == READ)
    {
      items, m := [], READ;
      hide ItemOf;
      var rest := archives.Keys;
      while rest != {}
        invariant rest <= archives.Keys && m.spared == {} && (calm ==> m == READ)
        invariant forall i | 0 <= i < |items| :: items[i].name in archives && items[i].name !in rest
        invariant forall i | 0 <= i < |items| ::
                    items[i].name !in m.missed && items[i] == ItemOf(OnDisk(), items[i].name, m)
        invariant forall i, j | 0 <= i < j < |items| :: items[i].name != items[j].name
        invariant forall name <- archives :: name in rest || name in m.missed || Listed(items, name)
        invariant forall name | name in m.missed || name in m.undated || name in m.unsized :: name !in rest
        decreases rest
      {
        var name :| name in rest;
        rest := rest - {name};
        ghost var before, was := items, m;
        var item;
        item, m := ReadItem(name, m);
        SameItems(OnDisk(), before, was, m, name);
        if item.Some? {
          NameOfItem(OnDisk(), name, m);
          items := items + [item.value];
          OneMoreListed(before, item.value);
        }
      }
    }

    lemma NameOfItem(f: Folder, name: string, m: Misread)
      requires name in f.archives
      ensures ItemOf(f, name, m).name == name
    {
    }

    lemma SameItems(f: Folder, items: seq<Item>, m: Misread, n: Misread, name: string)
      requires n.undated - {name} == m.undated && n.unsized - {name} == m.unsized
      requires name !in m.undated && name !in m.unsized
      ensures forall other | other in f.archives && other != name :: ItemOf(f, other, m) == ItemOf(f, other, n)
    {
      forall other | other != name
        ensures other in m.undated <==> other in n.undated
        ensures other in m.unsized <==> other in n.unsized
      {
        assert other in n.undated - {name} <==> other in n.undated;
        assert other in n.unsized - {name} <==> other in n.unsized;
      }
    }

    lemma OneMoreListed(items: seq<Item>, item: Item)
      ensures forall name :: Listed(items + [item], name) <==> Listed(items, name) || name == item.name
    {
      var more := items + [item];
      assert more[|items|] == item;
      forall name | Listed(items, name) ensures Listed(more, name) {
        var i :| 0 <= i < |items| && items[i].name == name;
        assert more[i].name == name;
      }
    }

    /** Sorts newest first, the later name first among equal times. */
    method SortByNewest(items: seq<Item>) returns (sorted: seq<Item>)
      requires forall i, j | 0 <= i < j < |items| :: items[i].name != items[j].name
      ensures NewestFirst(sorted) && multiset(sorted) == multiset(items)
    {
      sorted := [];
      for n := 0 to |items|
        invariant NewestFirst(sorted) && multiset(sorted) == multiset(items[..n])
      {
        var x := items[n];
        var k := 0;
        while k < |sorted| && Newer(sorted[k], x)
          invariant 0 <= k <= |sorted|
          invariant forall i | 0 <= i < k :: Newer(sorted[i], x)
        {
          k := k + 1;
        }
        InsertSorted(sorted, x, k, items, n);
        assert items[..n + 1] == items[..n] + [x];
        assert sorted == sorted[..k] + sorted[k..];
        sorted := sorted[..k] + [x] + sorted[k..];
      }
      assert items[..|items|] == items;
    }

    lemma InsertSorted(sorted: seq<Item>, x: Item, k: nat, items: seq<Item>, n: nat)
      requires k <= |sorted| && n < |items| && x == items[n]
      requires forall i, j | 0 <= i < j < |items| :: items[i].name != items[j].name
      requires NewestFirst(sorted) && multiset(sorted) == multiset(items[..n])
      requires forall i | 0 <= i < k :: Newer(sorted[i], x)
      requires k < |sorted| ==> !Newer(sorted[k], x)
      ensures NewestFirst(sorted[..k] + [x] + sorted[k..])
    {
      forall i | k <= i < |sorted| ensures Newer(x, sorted[i]) {
        assert sorted[i] in multiset(sorted) && sorted[k] in multiset(sorted);
        NewerIsTotal(x, sorted[k]);
        if i > k {
          NewerIsTransitive(x, sorted[k], sorted[i]);
        }
      }
    }

    lemma NewerIsTotal(a: Item, b: Item)
      requires a.name != b.name
      ensures Newer(a, b) || Newer(b, a)
    {
      BeforeIsTotal(a.name, b.name);
    }

    lemma NewerIsTransitive(a: Item, b: Item, c: Item)
      requires Newer(a, b) && Newer(b, c)
      ensures Newer(a, c)
    {
      if a.created == b.created == c.created {
        BeforeIsTransitive(c.name, b.name, a.name);
      }
    }

    lemma SortedLists(f: Folder, items: seq<Item>, sorted: seq<Item>, m: Misread)
      requires Lists(f, items, m) && NewestFirst(sorted) && multiset(sorted) == multiset(items)
      ensures Lists(f, sorted, m)
    {
      forall i | 0 <= i < |sorted|
        ensures sorted[i].name in f.archives && sorted[i].name !in m.missed && sorted[i] == ItemOf(f, sorted[i].name, m)
      {
        assert sorted[i] in multiset(items);
      }
      forall i, j | 0 <= i < j < |sorted| ensures sorted[i].name != sorted[j].name {
        assert Newer(sorted[i], sorted[j]);
        if sorted[i].name == sorted[j].name {
          BeforeIsAsymmetric(sorted[i].name, sorted[j].name);
        }
      }
      forall name <- f.archives | name !in m.missed ensures Listed(sorted, name) {
        var i :| 0 <= i < |items| && items[i].name == name;
        assert items[i] in multiset(sorted);
      }
    }

    /** Removes metadata whose archive was not listed, where it can be looked at. */
    method RemoveOrphans(items: seq<Item>, ghost m0: Misread) returns (r: IoResult, ghost m: Misread)
      requires Lists(OnDisk(), items, m0) && m0.spared == {}
      modifies this`metadata
      ensures m == m0.(spared := m.spared) && Shrinks(old(OnDisk()), OnDisk())
      ensures forall name <- old(metadata) | name in archives && name !in m.missed :: name in metadata
      ensures r.Done? ==> Swept(old(OnDisk()), OnDisk(), m)
      ensures calm ==> r.Done? && m == m0
    {
      var listed := set item <- items :: item.name;
      m := m0;
      ListedNames(old(OnDisk()), items, m, listed);
      var rest := metadata.Keys;
      while rest != {}
        invariant m == m0.(spared := m.spared) && (calm ==> m == m0) && Shrinks(old(OnDisk()), OnDisk())
        invariant rest <= old(metadata).Keys && forall name <- m.spared :: name !in rest
        invariant forall name <- old(metadata) ::
                    name in metadata <==> name in rest || name in listed || name in m.spared
        decreases rest
      {
        var name :| name in rest;
        rest := rest - {name};
        if name !in listed {
          var seen := Chance(calm);
          if !seen.Done? {
            m := m.(spared := m.spared + {name});
            continue;
          }
          r := Chance(calm);
          if !r.Done? { return; }
          metadata := metadata - {name};
        }
      }
      r := Done;
    }

    lemma ListedNames(f: Folder, items: seq<Item>, m: Misread, listed: set<string>)
      requires Lists(f, items, m) && listed == (set item <- items :: item.name)
      ensures forall name :: name in listed <==> name in f.archives && name !in m.missed
    {
      forall name ensures name in listed <==> name in f.archives && name !in m.missed {
        if name in f.archives && name !in m.missed {
          assert Listed(items, name);
          var i :| 0 <= i < |items| && items[i].name == name;
          assert items[i] in items;
        }
      }
    }

    /** The newest archive that verifies; a read error counts as corrupt. */
    method FindProtected(items: seq<Item>) returns (low: nat, ghost unread: set<string>)
      requires forall i | 0 <= i < |items| :: items[i].name in archives
      ensures low <= |items| && (low < |items| ==> NewestVerified(OnDisk(), items, low, unread))
      ensures low == |items| ==> forall i | 0 <= i < |items| :: Verifies(OnDisk(), items[i].name) ==>
        items[i].name in unread
      ensures calm ==> unread == {}
    {
      low, unread := 0, {};
      while low < |items|
        invariant 0 <= low <= |items|
        invariant forall i | 0 <= i < low :: Verifies(OnDisk(), items[i].name) ==> items[i].name in unread
        invariant calm ==> unread == {}
      {
        var name := items[low].name;
        var read := Chance(calm);
        if read.Done? && name in metadata && metadata[name].durable && metadata[name].digest == archives[name].digest {
          return;
        }
        if !read.Done? { unread := unread + {name}; }
        low := low + 1;
      }
    }

    /** Removes corrupt archives and those beyond the count, but not item `low`. */
    method RemoveBeyond(items: seq<Item>, low: nat, keep: nat) returns (r: IoResult)
      requires Distinct(items) && low < |items| && forall i | 0 <= i < |items| :: items[i].name in archives
      modifies this
      ensures Shrinks(old(OnDisk()), OnDisk())
      ensures items[low].name in archives && (items[low].name in old(metadata) ==> items[low].name in metadata)
      ensures r.Done? ==> Cut(old(OnDisk()), OnDisk(), items, low, Limit(items, low, keep))
      ensures calm ==> r.Done?
    {
      for index := 0 to |items|
        invariant Shrinks(old(OnDisk()), OnDisk())
        invariant forall j | 0 <= j < |items| :: items[j].name in archives <==> j >= index || j == low || low < j < keep
        invariant forall name <- old(archives) | !Listed(items, name) :: name in archives
        invariant forall name <- old(metadata) :: name in metadata <==> (Listed(items, name) ==> name in archives)
      {
        var corrupt := index < low;
        if index != low && (corrupt || index >= keep) {
          assert Listed(items, items[index].name);
          r := RemoveItem(items[index].name);
          if !r.Done? { return; }
        }
      }
      r := Done;
    }

    /** The archives that the count leaves, newest first. */
    method Retained(items: seq<Item>, low: nat, keep: nat) returns (retained: seq<Item>, bytes: nat)
      requires low < |items|
      ensures |retained| == Limit(items, low, keep) - low && bytes == SizeOf(items, low, Limit(items, low, keep))
      ensures forall i | 0 <= i < |retained| :: retained[i] == items[low + i]
    {
      retained := [];
      for index := 0 to |items|
        invariant retained == if index <= low then []
          else items[low..if index <= Limit(items, low, keep) then index else Limit(items, low, keep)]
      {
        var corrupt := index < low;
        if !corrupt && (index < keep || index == low) {
          retained := retained + [items[index]];
        }
      }
      bytes := 0;
      for index := 0 to |retained|
        invariant bytes == SizeOf(items, low, low + index)
      {
        bytes := bytes + retained[index].size;
      }
    }

    /** Removes the oldest archive of the run; `left` is what the rest takes. */
    method DropOldest(item: Item, bytes: nat, budget: nat, ghost items: seq<Item>, ghost low: nat, ghost high: nat,
      ghost f: Folder)
      returns (r: IoResult, left: nat)
      requires Distinct(items) && low + 1 < high && Cut(f, OnDisk(), items, low, high)
      requires item == items[high - 1] && bytes == SizeOf(items, low, high) && bytes > budget
      modifies this
      ensures Shrinks(f, OnDisk())
      ensures items[low].name in archives && (items[low].name in f.metadata ==> items[low].name in metadata)
      ensures r.Done? ==> Cut(f, OnDisk(), items, low, high - 1)
      ensures left == SizeOf(items, low, high - 1) && SizeOf(items, low, high - 1 + 1) > budget
      ensures calm ==> r.Done?
    {
      ghost var before := OnDisk();
      left := bytes - item.size;
      r := RemoveItem(item.name);
      if r.Done? {
        CutFurther(f, before, OnDisk(), items, low, high);
      }
    }

    /** Removes from the old end until the budget is met, but not item `low`. */
    method CutToBudget(items: seq<Item>, low: nat, keep: nat, budget: nat, ghost f: Folder)
      returns (r: IoResult, ghost high: nat)
      requires Distinct(items) && low < |items|
      requires Cut(f, OnDisk(), items, low, Limit(items, low, keep))
      modifies this
      ensures Shrinks(f, OnDisk())
      ensures items[low].name in archives && (items[low].name in f.metadata ==> items[low].name in metadata)
      ensures r.Done? ==> Retains(items, low, high, keep, budget) && Cut(f, OnDisk(), items, low, high)
      ensures calm ==> r.Done?
    {
      hide Cut, Shrinks;
      CutKeepsFirst(f, OnDisk(), items, low, Limit(items, low, keep));
      var retained, bytes := Retained(items, low, keep);
      high := Limit(items, low, keep);
      var protectedName := items[low].name;
      var index := |retained| - 1;
      while index >= 0 && bytes > budget
        invariant -1 <= index < |retained| && low < high <= Limit(items, low, keep)
        invariant high == if index >= 0 then low + index + 1 else low + 1
        invariant Cut(f, OnDisk(), items, low, high)
        invariant bytes == SizeOf(items, low, high)
        invariant Shrinks(f, OnDisk()) && items[low].name in archives
        invariant items[low].name in f.metadata ==> items[low].name in metadata
        invariant high == Limit(items, low, keep) || SizeOf(items, low, high + 1) > budget
      {
        var item := retained[index];
        if item.name != protectedName {
          r, bytes := DropOldest(item, bytes, budget, items, low, high, f);
          if !r.Done? { return; }
          high := high - 1;
        }
        index := index - 1;
      }
      r := Done;
    }

    /** The archives of the listing: what the count and the budget leave. */
    method KeepRun(items: seq<Item>, keep: nat, budget: nat)
      returns (r: PruneResult, ghost low: nat, ghost high: nat, ghost unread: set<string>)
      requires Distinct(items) && items != [] && forall i | 0 <= i < |items| :: items[i].name in archives
      modifies this
      ensures Shrinks(old(OnDisk()), OnDisk())
      ensures r.PruneDone? ==>
                && NewestVerified(old(OnDisk()), items, low, unread) && Retains(items, low, high, keep, budget)
                && Cut(old(OnDisk()), OnDisk(), items, low, high)
      ensures r.NoneVerifies? ==>
                && OnDisk() == old(OnDisk())
                && forall i | 0 <= i < |items| :: Verifies(OnDisk(), items[i].name) ==> items[i].name in unread
      ensures AnyVerified(old(OnDisk()), {}) && !r.NoneVerifies? ==> AnyVerified(OnDisk(), {})
      ensures calm ==> unread == {} && (r.PruneDone? || r.NoneVerifies?)
    {
      hide Verifies, Cut, AnyVerified, Retains, SizeOf, Limit;
      ghost var f := OnDisk();
      high := 0;
      var found;
      found, unread := FindProtected(items);
      low := found;
      if found == |items| { return NoneVerifies, low, high, unread; }
      var w := RemoveBeyond(items, found, keep);
      RemainsVerified(f, OnDisk(), items[low].name);
      if !w.Done? { return if w.Died? then PruneDied else PruneFailed, low, high, unread; }
      w, high := CutToBudget(items, found, keep, budget, f);
      RemainsVerified(f, OnDisk(), items[low].name);
      if !w.Done? { return if w.Died? then PruneDied else PruneFailed, low, high, unread; }
      r := PruneDone;
    }

    /** pruneBackups, as far as it concerns durable archives.  A prune that comes to
        its end leaves a verified archive exactly when there was one that the listing
        did not miss, or whose metadata it spared. */
    method Prune(keepCount: int, maxBytes: int)
      returns (r: PruneResult, ghost items: seq<Item>, ghost m: Misread, ghost low: nat, ghost high: nat,
               ghost unread: set<string>)
      modifies this
      ensures Shrinks(old(OnDisk()), OnDisk())
      ensures r.PruneDone? || r.NoneVerifies? ==> Lists(old(OnDisk()), items, m) && NewestFirst(items)
      ensures r.PruneDone? ==> Pruned(old(OnDisk()), OnDisk(), items, m, low, high)
      ensures r.PruneDone? && items != [] ==>
                var keep, budget := if keepCount <= 0 then 5 else keepCount,
                                    if maxBytes <= 0 then 10737418240 else maxBytes;
                NewestVerified(old(OnDisk()), items, low, unread) && Retains(items, low, high, keep, budget)
      ensures r.NoneVerifies? ==>
                && archives == old(archives)
                && forall name | Verifies(old(OnDisk()), name) :: name in unread || name in m.missed
      ensures AnyVerified(old(OnDisk()), m.missed) ==> AnyVerified(OnDisk(), {})
      ensures r.PruneDone? || r.NoneVerifies? ==>
                (AnyVerified(OnDisk(), {}) <==> AnyVerified(old(OnDisk()), m.missed - m.spared))
      ensures calm ==> m == READ && unread == {} && (r.PruneDone? || r.NoneVerifies?)
      ensures calm ==> (r.NoneVerifies? <==> old(archives) != map[] && !AnyVerified(old(OnDisk()), {}))
    {
      items, low, high, unread := [], 0, 0, {};
      hide Verifies, Pruned, Swept, Cut, ItemOf, AnyVerified, Retains, NewestFirst, Lists, Newer, SizeOf, Limit;
      var keep := if keepCount <= 0 then DEFAULT_RETENTION else keepCount;
      var budget := if maxBytes <= 0 then DEFAULT_MAX_BYTES else maxBytes;
      ghost var start := OnDisk();
      var listed;
      listed, m := ListItems();
      var sorted := SortByNewest(listed);
      SortedLists(start, listed, sorted, m);
      items := sorted;
      var w;
      ghost var m0 := m;
      w, m := RemoveOrphans(sorted, m);
      SparedListing(start, sorted, m0, m);
      ListsAgain(start, OnDisk(), sorted, m);
      if m == READ { ListsAll(start, sorted); }
      if !w.Done? { return if w.Died? then PruneDied else PruneFailed, items, m, low, high, unread; }
      ghost var f := OnDisk();
      if |sorted| == 0 {
        NoneListed(start, f, m);
        return PruneDone, items, m, low, high, unread;
      }
      r, low, high, unread := KeepRun(sorted, keep, budget);
      if r.PruneDone? {
        SweptAndCut(start, f, OnDisk(), sorted, m, low, high);
        VerifiedBefore(start, f, sorted, m, low, unread);
        assert m == READ ==> m.missed - m.spared == {};
      } else if r.NoneVerifies? {
        AllListed(start, f, sorted, m, unread);
        SweptKeeps(start, f, m);
        if m == READ && unread == {} { NothingVerifies(start); }
      }
    }

    /** Any number of backups and prunes, each of which may fail or be cut off:
        once an archive verifies, some archive always does, as long as no prune
        misses one that verifies. */
    method Operate(steps: seq<Step>) returns (ghost folders: seq<Folder>, ghost misreads: seq<Misread>)
      modifies this
      ensures |folders| == |steps| + 1 && |misreads| == |steps|
      ensures folders[0] == old(OnDisk()) && folders[|steps|] == OnDisk()
      ensures forall i | 0 <= i < |steps| ::
                AnyVerified(folders[i], misreads[i].missed) ==> AnyVerified(folders[i + 1], {})
      ensures AnyVerified(old(OnDisk()), {}) && (forall i | 0 <= i < |steps| :: MissesNone(folders[i], misreads[i])) ==>
                AnyVerified(OnDisk(), {})
      ensures calm ==> forall i | 0 <= i < |steps| :: Did(folders[i], folders[i + 1], steps[i])
    {
      folders, misreads := [OnDisk()], [];
      for i := 0 to |steps|
        invariant |folders| == i + 1 && |misreads| == i && folders[0] == old(OnDisk()) && folders[i] == OnDisk()
        invariant forall j | 0 <= j < i ::
                    AnyVerified(folders[j], misreads[j].missed) ==> AnyVerified(folders[j + 1], {})
        invariant AnyVerified(old(OnDisk()), {}) && (forall j | 0 <= j < i :: MissesNone(folders[j], misreads[j])) ==>
                    AnyVerified(OnDisk(), {})
        invariant calm ==> forall j | 0 <= j < i :: Did(folders[j], folders[j + 1], steps[j])
      {
        hide Verifies, AnyVerified, MissesNone, Did;
        ghost var f, was := folders, misreads;
        ghost var m := Perform(steps[i]);
        folders, misreads := f + [OnDisk()], was + [m];
        assert forall j | 0 <= j < i :: folders[j] == f[j] && misreads[j] == was[j];
        if MissesNone(folders[i], misreads[i]) { MissingNoneKeeps(f[i], m); }
      }
    }

    method Perform(step: Step) returns (ghost m: Misread)
      modifies this
      ensures AnyVerified(old(OnDisk()), m.missed) ==> AnyVerified(OnDisk(), {})
      ensures calm ==> Did(old(OnDisk()), OnDisk(), step)
    {
      m := READ;
      hide Pruned, Lists, NewestFirst, NewestVerified, Retains;
      match step {
        case Backup(name, size, digest, now) =>
          ghost var f := OnDisk();
          var r := Publish(name, size, digest, now);
          assert name in f.archives ==> archives == f.archives && metadata == f.metadata;
          assert r.Done? ==> archives == f.archives[name := Archive(size, digest, now)];
          StaysVerified(old(OnDisk()), OnDisk());
        case PruneTo(keep, bytes) =>
          ghost var items, low, high, unread;
          var r;
          r, items, m, low, high, unread := Prune(keep, bytes);
          if calm && r.PruneDone? {
            ListsAll(old(OnDisk()), items);
            assert items != [] ==> PrunedTo(old(OnDisk()), OnDisk(), items, low, high, keep, bytes);
          }
          assert old(archives) == map[] ==> archives == map[];
      }
    }
  }

  /** What a step leaves when nothing goes wrong around it: a backup under a new
      name is there and verifies; a prune that has a verified archive to keep
      leaves the run that count and size allow. */
  ghost predicate Did(f: Folder, g: Folder, step: Step) {
    match step
    case Backup(name, size, digest, now) =>
      if name in f.archives then g == f
      else Verifies(g, name) && g.archives == f.archives[name := Archive(size, digest, now)]
    case PruneTo(keepCount, maxBytes) =>
      if AnyVerified(f, {}) then exists items, low, high :: PrunedTo(f, g, items, low, high, keepCount, maxBytes)
      else g.archives == f.archives
  }

  ghost predicate PrunedTo(
    f: Folder, g: Folder, items: seq<Item>, low: nat, high: nat, keepCount: int, maxBytes: int)
  {
    var keep, budget := if keepCount <= 0 then DEFAULT_RETENTION else keepCount,
                        if maxBytes <= 0 then DEFAULT_MAX_BYTES else maxBytes;
    && Lists(f, items, READ) && NewestFirst(items) && NewestVerified(f, items, low, {})
    && Retains(items, low, high, keep, budget) && Pruned(f, g, items, READ, low, high)
  }

  /** Some archive verifies that is not one of `but`. */
  ghost predicate AnyVerified(f: Folder, but: set<string>) {
    exists name :: Verifies(f, name) && name !in but
  }

  /** No archive that verifies was left out of the listing. */
  ghost predicate MissesNone(f: Folder, m: Misread) {
    forall name <- m.missed :: !Verifies(f, name)
  }

  lemma StaysVerified(f: Folder, g: Folder)
    requires forall name | Verifies(f, name) :: Verifies(g, name)
    ensures AnyVerified(f, {}) ==> AnyVerified(g, {})
  {
    if name :| Verifies(f, name) && name !in {} { assert Verifies(g, name) && name !in {}; }
  }

  lemma RemainsVerified(f: Folder, g: Folder, name: string)
    requires Verifies(f, name) && Shrinks(f, g)
    requires name in g.archives && (name in f.metadata ==> name in g.metadata)
    ensures Verifies(g, name) && AnyVerified(g, {})
  {
    assert Verifies(g, name) && name !in {};
  }

  lemma VerifiedBefore(f: Folder, g: Folder, items: seq<Item>, m: Misread, low: nat, unread: set<string>)
    requires Lists(f, items, m) && Swept(f, g, m) && NewestVerified(g, items, low, unread)
    ensures NewestVerified(f, items, low, unread)
    ensures AnyVerified(f, m.missed - m.spared) && AnyVerified(g, {})
  {
    assert Verifies(f, items[low].name) && items[low].name !in m.missed - m.spared;
    assert Verifies(g, items[low].name) && items[low].name !in {};
  }

  lemma ListsAll(f: Folder, items: seq<Item>)
    requires Lists(f, items, READ)
    ensures items == [] <==> f.archives == map[]
  {
    if items != [] { assert items[0].name in f.archives; }
    if name :| name in f.archives { assert Listed(items, name); }
  }

  lemma NothingVerifies(f: Folder)
    requires forall name :: !Verifies(f, name)
    ensures !AnyVerified(f, {})
  {
  }

  lemma MissingNoneKeeps(f: Folder, m: Misread)
    requires MissesNone(f, m)
    ensures AnyVerified(f, {}) ==> AnyVerified(f, m.missed)
  {
    if name :| Verifies(f, name) && name !in {} { assert Verifies(f, name) && name !in m.missed; }
  }

  lemma CutKeepsFirst(f: Folder, g: Folder, items: seq<Item>, low: nat, high: nat)
    requires Cut(f, g, items, low, high) && low < high
    ensures Shrinks(f, g) && items[low].name in g.archives
    ensures items[low].name in f.metadata ==> items[low].name in g.metadata
  {
  }

  lemma CutFurther(f: Folder, g: Folder, h: Folder, items: seq<Item>, low: nat, high: nat)
    requires Distinct(items) && Cut(f, g, items, low, high) && low < high
    requires h == Folder(g.archives - {items[high - 1].name}, g.metadata - {items[high - 1].name})
    ensures Cut(f, h, items, low, high - 1)
  {
    assert Listed(items, items[high - 1].name);
  }

  /** A listing in which every archive was missed. */
  lemma NoneListed(f: Folder, g: Folder, m: Misread)
    requires Lists(f, [], m) && Swept(f, g, m)
    ensures Pruned(f, g, [], m, 0, 0)
    ensures AnyVerified(g, {}) <==> AnyVerified(f, m.missed - m.spared)
  {
    SweptKeeps(f, g, m);
    SweptAndCut(f, g, g, [], m, 0, 0);
  }

  /** What verifies after the removal of left-over metadata. */
  lemma SweptKeeps(f: Folder, g: Folder, m: Misread)
    requires Swept(f, g, m)
    ensures forall name :: Verifies(g, name) <==> Verifies(f, name) && (name !in m.missed || name in m.spared)
    ensures AnyVerified(g, {}) <==> AnyVerified(f, m.missed - m.spared)
  {
    if name :| Verifies(g, name) && name !in {} { assert Verifies(f, name) && name !in m.missed - m.spared; }
    if name :| Verifies(f, name) && name !in m.missed - m.spared { assert Verifies(g, name) && name !in {}; }
  }

  /** What was spared later does not change the listing. */
  lemma SparedListing(f: Folder, items: seq<Item>, m: Misread, n: Misread)
    requires Lists(f, items, m) && n == m.(spared := n.spared)
    ensures Lists(f, items, n) && Distinct(items)
  {
  }

  lemma AllListed(f: Folder, g: Folder, items: seq<Item>, m: Misread, unread: set<string>)
    requires Lists(f, items, m) && Swept(f, g, m)
    requires forall i | 0 <= i < |items| :: Verifies(g, items[i].name) ==> items[i].name in unread
    ensures forall name | Verifies(f, name) :: name in unread || name in m.missed
  {
    forall name | Verifies(f, name) ensures name in unread || name in m.missed {
      if name !in m.missed { assert Listed(items, name) && Verifies(g, name); }
    }
  }

  /** As far as metadata of listed archives stays, the same items verify. */
  lemma ListsAgain(f: Folder, g: Folder, items: seq<Item>, m: Misread)
    requires Lists(f, items, m) && Shrinks(f, g) && g.archives == f.archives
    requires forall name <- f.metadata | name in f.archives && name !in m.missed :: name in g.metadata
    ensures forall i | 0 <= i < |items| :: items[i].name in g.archives
    ensures forall name | name !in m.missed :: Verifies(f, name) <==> Verifies(g, name)
    ensures AnyVerified(f, m.missed) ==> AnyVerified(g, {})
  {
    if name :| Verifies(f, name) && name !in m.missed { assert Verifies(g, name) && name !in {}; }
  }

  /** A second prune after a completed one, with no read errors, removes nothing. */
  lemma SecondPruneRemovesNothing(
    f: Folder, g: Folder, items: seq<Item>, low: nat, high: nat, unread: set<string>,
    h: Folder, again: seq<Item>, first: nat, last: nat, keep: nat, budget: nat)
    requires 0 < keep
    requires Lists(f, items, READ) && NewestFirst(items) && NewestVerified(f, items, low, unread)
    requires Retains(items, low, high, keep, budget) && Pruned(f, g, items, READ, low, high)
    requires Lists(g, again, READ) && NewestFirst(again) && NewestVerified(g, again, first, {})
    requires Retains(again, first, last, keep, budget) && Pruned(g, h, again, READ, first, last)
    ensures h == g
  {
    var kept := items[low..high];
    forall x ensures x in kept <==> x in again {
      KeptIsListed(f, g, items, low, high, again, x);
    }
    OneOrder(kept, again);
    StillVerifies(f, g, items, low, high);
    assert again[0] == items[low];
    FirstVerifies(g, again, first);
    SecondRun(items, low, high, again, last, keep, budget);
    NothingRemoved(f, g, items, low, high, h, again);
  }

  lemma SecondRun(items: seq<Item>, low: nat, high: nat, again: seq<Item>, last: nat, keep: nat, budget: nat)
    requires 0 < keep && Retains(items, low, high, keep, budget)
    requires again == items[low..high] && Retains(again, 0, last, keep, budget)
    ensures last == |again|
  {
    SecondPruneKeepsAll(items, low, high, keep, budget);
    RetainsOneRun(again, 0, last, high - low, keep, budget);
  }

  lemma FirstVerifies(g: Folder, items: seq<Item>, low: nat)
    requires NewestVerified(g, items, low, {}) && Verifies(g, items[0].name)
    ensures low == 0
  {
  }

  lemma StillVerifies(f: Folder, g: Folder, items: seq<Item>, low: nat, high: nat)
    requires Pruned(f, g, items, READ, low, high) && low < high && Verifies(f, items[low].name)
    ensures Verifies(g, items[low].name)
  {
  }

  lemma NothingRemoved(f: Folder, g: Folder, items: seq<Item>, low: nat, high: nat, h: Folder, again: seq<Item>)
    requires Pruned(f, g, items, READ, low, high)
    requires Lists(g, again, READ) && Pruned(g, h, again, READ, 0, |again|)
    ensures h == g
  {
    forall name <- g.archives ensures name in h.archives {
      assert Listed(again, name);
    }
    assert h.archives.Keys == g.archives.Keys;
    assert h.metadata.Keys == g.metadata.Keys;
  }

  /** A kept archive is the same item as before. */
  lemma {:induction false} KeptItemsStay(f: Folder, g: Folder, items: seq<Item>, low: nat, high: nat, name: string)
    requires Pruned(f, g, items, READ, low, high) && name in g.archives
    ensures name in f.archives && ItemOf(g, name, READ) == ItemOf(f, name, READ)
  {
  }

  lemma KeptIsListed(f: Folder, g: Folder, items: seq<Item>, low: nat, high: nat, again: seq<Item>, x: Item)
    requires Lists(f, items, READ) && Pruned(f, g, items, READ, low, high) && Lists(g, again, READ)
    ensures x in items[low..high] <==> x in again
  {
    if x in items[low..high] {
      var i :| low <= i < high && items[i] == x;
      KeptItemsStay(f, g, items, low, high, x.name);
      assert Listed(again, x.name);
      var j :| 0 <= j < |again| && again[j].name == x.name;
      assert again[j] == ItemOf(g, x.name, READ) == ItemOf(f, x.name, READ) == items[i];
    }
    if x in again {
      var i :| 0 <= i < |again| && again[i] == x;
      KeptItemsStay(f, g, items, low, high, x.name);
      assert Listed(items, x.name);
      var j :| 0 <= j < |items| && items[j].name == x.name;
      assert items[j] == ItemOf(f, x.name, READ) == ItemOf(g, x.name, READ) == again[i];
      assert items[low..high][j - low] == x;
    }
  }

  // --------------------------------------------------------------- witnesses

  /** What is read of a folder determines the listing. */
  lemma OneListing(f: Folder, items: seq<Item>, others: seq<Item>, m: Misread)
    requires Lists(f, items, m) && NewestFirst(items)
    requires Lists(f, others, m) && NewestFirst(others)
    ensures items == others
  {
    forall x ensures x in items <==> x in others {
      ItemIsListed(f, items, others, m, x);
      ItemIsListed(f, others, items, m, x);
    }
    OneOrder(items, others);
  }

  lemma ItemIsListed(f: Folder, items: seq<Item>, others: seq<Item>, m: Misread, x: Item)
    requires Lists(f, items, m) && Lists(f, others, m)
    ensures x in items ==> x in others
  {
    hide ItemOf;
    if x in items {
      var i :| 0 <= i < |items| && items[i] == x;
      assert Listed(others, items[i].name);
      var j :| 0 <= j < |others| && others[j].name == x.name;
      assert others[j] == x;
    }
  }

  /** Three archives, the newest of them corrupt: its digest is not that of the
      file. */
  function NewestIsCorrupt(): Folder {
    Folder(
      map["a" := Archive(1, "d", 1), "b" := Archive(1, "d", 2), "c" := Archive(1, "x", 3)],
      map["a" := BackupRetention.Metadata(1, "d", Some(1), true),
        "b" := BackupRetention.Metadata(1, "d", Some(2), true),
          "c" := BackupRetention.Metadata(1, "d", Some(3), true)])
  }

  function Listing(): seq<Item> {
    [Item("c", 3, 2), Item("b", 2, 2), Item("a", 1, 2)]
  }

  lemma OnlyListing(items: seq<Item>)
    requires Lists(NewestIsCorrupt(), items, READ) && NewestFirst(items)
    ensures items == Listing()
  {
    ListingItems();
    var l := Listing();
    assert l[0].name == "c" && l[1].name == "b" && l[2].name == "a";
    OneListing(NewestIsCorrupt(), items, l, READ);
  }

  lemma ListingItems()
    ensures var f, l := NewestIsCorrupt(), Listing();
      f.archives.Keys == {l[0].name, l[1].name, l[2].name}
      && forall k | 0 <= k < |l| :: l[k].name in f.archives && ItemOf(f, l[k].name, READ) == l[k]
  {
  }

  lemma ListingVerifies()
    ensures var f, l := NewestIsCorrupt(), Listing();
      !Verifies(f, l[0].name) && Verifies(f, l[1].name) && Verifies(f, l[2].name)
  {
  }

  /** Two verified archives are there and two are asked for; a completed prune
      that reads everything keeps one, whatever the budget. */
  lemma OneOfTwoIsKept(g: Folder, items: seq<Item>, low: nat, high: nat, budget: nat)
    requires Lists(NewestIsCorrupt(), items, READ) && NewestFirst(items)
    requires NewestVerified(NewestIsCorrupt(), items, low, {}) && Retains(items, low, high, 2, budget)
    requires Pruned(NewestIsCorrupt(), g, items, READ, low, high)
    ensures Verifies(NewestIsCorrupt(), "a") && Verifies(NewestIsCorrupt(), "b") && g.archives.Keys == {"b"}
  {
    OnlyListing(items);
    ListingVerifies();
    hide Verifies, NewestIsCorrupt, NewestFirst, Shrinks, Lists, SizeOf;
    assert low != 0 && low != 2;
    assert items[0].name == "c" && items[1].name == "b" && items[2].name == "a";
    KeysOfListing(g);
  }

  lemma KeysOfListing(g: Folder)
    requires Shrinks(NewestIsCorrupt(), g) && "a" !in g.archives && "c" !in g.archives && "b" in g.archives
    ensures g.archives.Keys == {"b"}
  {
  }

  /** Two archives that verify; the newer one, "a", was copied here long ago. */
  function Copied(): Folder {
    Folder(
      map["a" := Archive(1, "d", 0), "b" := Archive(1, "d", 1)],
      map["a" := BackupRetention.Metadata(1, "d", Some(2), true),
        "b" := BackupRetention.Metadata(1, "d", Some(1), true)])
  }

  /** With its creation time unread, the newer one is removed in place of the other. */
  lemma UndatedArchiveIsRemoved(g: Folder, items: seq<Item>, low: nat, high: nat, budget: nat)
    requires var m := READ.(undated := {"a"});
      Lists(Copied(), items, m) && NewestFirst(items) && Pruned(Copied(), g, items, m, low, high)
    requires NewestVerified(Copied(), items, low, {}) && Retains(items, low, high, 1, budget)
    ensures ItemOf(Copied(), "a", READ).created > ItemOf(Copied(), "b", READ).created
    ensures Verifies(Copied(), "a") && g.archives.Keys == {"b"}
  {
    CopiedListing(items);
    hide NewestFirst, Lists, SizeOf;
    assert items[0].name == "b" && items[1].name == "a";
    assert "a" in Copied().archives && g.archives.Keys == {"b"};
  }

  lemma CopiedListing(items: seq<Item>)
    requires Lists(Copied(), items, READ.(undated := {"a"})) && NewestFirst(items)
    ensures items == [Item("b", 1, 2), Item("a", 0, 2)]
  {
    var l := [Item("b", 1, 2), Item("a", 0, 2)];
    assert l[0].name == "b" && l[1].name == "a";
    OneListing(Copied(), items, l, READ.(undated := {"a"}));
  }

  /** One archive, and it verifies. */
  function Single(): Folder {
    Folder(map["a" := Archive(1, "d", 1)], map["a" := BackupRetention.Metadata(1, "d", Some(1), true)])
  }

  /** A prune that misses it reports success, and its metadata is gone. */
  lemma MissedArchiveIsLost(g: Folder, items: seq<Item>, low: nat, high: nat)
    requires var m := READ.(missed := {"a"}); Lists(Single(), items, m) && Pruned(Single(), g, items, m, low, high)
    ensures Verifies(Single(), "a") && g == Folder(Single().archives, map[]) && !AnyVerified(g, {})
  {
    var m := READ.(missed := {"a"});
    assert "a" in Single().archives && "a" in Single().metadata;
    assert g.archives.Keys == {"a"} && g.metadata.Keys == {};
  }
}
