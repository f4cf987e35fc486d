/** operator/backup_prune.go: which durable archives a prune keeps, as a
    specification that does not look at how they are removed. */
module BackupRetention {
  import opened Wrappers

  /** An archive and the metadata file beside it. */
  datatype Archive = Archive(size: nat, digest: string, modified: int)

  datatype Metadata = Metadata(size: nat, digest: string, created: Option<int>, durable: bool)

  datatype Folder = Folder(archives: map<string, Archive>, metadata: map<string, Metadata>)

  datatype Item = Item(name: string, created: int, size: nat)

  /** verifyDurableBackupArchive, when every file can be read. */
  predicate Verifies(f: Folder, name: string) {
    && name in f.archives && name in f.metadata
    && f.metadata[name].durable && f.metadata[name].digest == f.archives[name].digest
  }

  /** Errors that a listing passes over: `missed` archives are left out of it,
      `undated` and `unsized` ones are listed without what their metadata says, and
      `spared` metadata is not taken for left over. */
  datatype Misread = Misread(missed: set<string>, undated: set<string>, unsized: set<string>, spared: set<string>)

  const READ := Misread({}, {}, {}, {})

  function ItemOf(f: Folder, name: string, m: Misread): Item
    requires name in f.archives
  {
    var archive := f.archives[name];
    if name in f.metadata then
      Item(name,
           if f.metadata[name].created.Some? && name !in m.undated then f.metadata[name].created.value
           else archive.modified,
           archive.size + if name in m.unsized then 0 else f.metadata[name].size)
    else Item(name, archive.modified, archive.size)
  }

  // -------------------------------------------------------------------- order

  /** The byte order of names. */
  predicate Before(a: string, b: string) {
    b != [] && (a == [] || a[0] < b[0] || (a[0] == b[0] && Before(a[1..], b[1..])))
  }

  predicate Newer(a: Item, b: Item) {
    if a.created == b.created then Before(b.name, a.name) else a.created > b.created
  }

  predicate NewestFirst(items: seq<Item>) {
    forall i, j | 0 <= i < j < |items| :: Newer(items[i], items[j])
  }

  lemma {:induction false} BeforeIsTotal(a: string, b: string)
    ensures Before(a, b) || a == b || Before(b, a)
  {
    if a != [] && b != [] && a[0] == b[0] {
      BeforeIsTotal(a[1..], b[1..]);
      assert a == [a[0]] + a[1..] && b == [b[0]] + b[1..];
    }
  }

  lemma {:induction false} BeforeIsAsymmetric(a: string, b: string)
    requires Before(a, b)
    ensures a != b && !Before(b, a)
  {
    if a != [] && a[0] == b[0] {
      BeforeIsAsymmetric(a[1..], b[1..]);
    }
  }

  lemma {:induction false} BeforeIsTransitive(a: string, b: string, c: string)
    requires Before(a, b) && Before(b, c)
    ensures Before(a, c)
  {
    if a != [] && a[0] == b[0] == c[0] {
      BeforeIsTransitive(a[1..], b[1..], c[1..]);
    }
  }

  /** `a` ends, or has the smaller byte, where the two first differ. */
  ghost predicate SmallerAt(a: string, b: string, i: nat) {
    i <= |a| && i < |b| && a[..i] == b[..i] && (i == |a| || a[i] < b[i])
  }

  lemma {:induction false} BeforeExactly(a: string, b: string)
    ensures Before(a, b) <==> exists i: nat :: SmallerAt(a, b, i)
  {
    if b != [] && a != [] && a[0] == b[0] {
      BeforeExactly(a[1..], b[1..]);
      if i: nat :| SmallerAt(a, b, i) { SmallerLater(a, b, i - 1); }
      if i: nat :| SmallerAt(a[1..], b[1..], i) { SmallerLater(a, b, i); }
    } else {
      assert Before(a, b) ==> SmallerAt(a, b, 0);
      if i: nat :| SmallerAt(a, b, i) { assert i > 0 ==> a[..i][0] == b[..i][0]; }
    }
  }

  lemma SmallerLater(a: string, b: string, i: nat)
    requires a != [] && b != [] && a[0] == b[0]
    ensures SmallerAt(a, b, i + 1) <==> SmallerAt(a[1..], b[1..], i)
  {
    if i < |a| && i < |b| {
      assert a[..i + 1] == [a[0]] + a[1..][..i] && b[..i + 1] == [b[0]] + b[1..][..i];
      assert a[..i + 1][1..] == a[1..][..i] && b[..i + 1][1..] == b[1..][..i];
    }
  }

  /** The later time is newer, and of equal times the name that is greater where
      the two first differ. */
  lemma NewerExactly(a: Item, b: Item)
    ensures Newer(a, b)
       <==> || a.created > b.created
            || (a.created == b.created && exists i: nat :: SmallerAt(b.name, a.name, i))
  {
    BeforeExactly(b.name, a.name);
  }

  /** The same items have one newest-first order only. */
  lemma {:induction false} OneOrder(s: seq<Item>, t: seq<Item>)
    requires NewestFirst(s) && NewestFirst(t) && forall x :: x in s <==> x in t
    ensures s == t
  {
    EmptyAlike(s, t);
    if s != [] {
      assert s[0] in t && t[0] in s;
      SameHead(s, t);
      forall x ensures x in s[1..] <==> x in t[1..] {
        TailWithoutHead(s, x);
        TailWithoutHead(t, x);
      }
      OneOrder(s[1..], t[1..]);
      assert s == [s[0]] + s[1..] && t == [t[0]] + t[1..];
    }
  }

  lemma EmptyAlike(s: seq<Item>, t: seq<Item>)
    requires forall x :: x in s <==> x in t
    ensures s == [] <==> t == []
  {
    if s != [] {
      assert s[0] in t;
    }
    if t != [] {
      assert t[0] in s;
    }
  }

  lemma SameHead(s: seq<Item>, t: seq<Item>)
    requires NewestFirst(s) && NewestFirst(t) && s != [] && t != [] && s[0] in t && t[0] in s
    ensures s[0] == t[0]
  {
    if s[0] != t[0] {
      NewerIsAsymmetric(s[0], t[0]);
    }
  }

  lemma TailWithoutHead(s: seq<Item>, x: Item)
    requires NewestFirst(s) && s != []
    ensures x in s[1..] <==> x in s && x != s[0]
  {
    if x in s[1..] && x == s[0] {
      var i :| 0 <= i < |s[1..]| && s[1..][i] == x;
      assert Newer(s[0], s[i + 1]);
      NewerIsAsymmetric(x, x);
    }
  }

  lemma NewerIsAsymmetric(a: Item, b: Item)
    requires Newer(a, b)
    ensures !Newer(b, a)
  {
    if a.created == b.created {
      BeforeIsAsymmetric(b.name, a.name);
    }
  }

  // ---------------------------------------------------------------- retention

  /** The size of items `low` up to `high`. */
  function SizeOf(items: seq<Item>, low: nat, high: nat): nat
    requires low <= high <= |items|
    decreases high
  {
    if low == high then 0 else SizeOf(items, low, high - 1) + items[high - 1].size
  }

  /** Runs add up, and a run of one item weighs what the archive and its metadata
      weigh, as far as they were read. */
  lemma {:induction false} SizesAdd(items: seq<Item>, low: nat, middle: nat, high: nat)
    requires low <= middle <= high <= |items|
    ensures SizeOf(items, low, high) == SizeOf(items, low, middle) + SizeOf(items, middle, high)
    ensures high == low + 1 ==> SizeOf(items, low, high) == items[low].size
    decreases high
  {
    if middle < high { SizesAdd(items, low, middle, high - 1); }
  }

  lemma ItemWeighs(f: Folder, name: string, m: Misread)
    requires name in f.archives
    ensures name in f.metadata && name !in m.unsized ==>
              ItemOf(f, name, m).size == f.archives[name].size + f.metadata[name].size
    ensures name !in f.metadata || name in m.unsized ==> ItemOf(f, name, m).size == f.archives[name].size
    ensures name in f.metadata && name !in m.undated && f.metadata[name].created.Some? ==>
              Some(ItemOf(f, name, m).created) == f.metadata[name].created
    ensures name !in f.metadata || name in m.undated || f.metadata[name].created.None? ==>
              ItemOf(f, name, m).created == f.archives[name].modified
  {
  }

  /** The end of the run that the count alone leaves. */
  function Limit(items: seq<Item>, low: nat, keep: nat): nat {
    if keep <= low then low + 1 else if keep <= |items| then keep else |items|
  }

  /** Items `low` up to `high` are what a prune of `items` keeps when item `low`
      is the newest one found to verify: positions below `keep` count, corrupt
      ones included, the budget cuts from the old end, and `low` always stays. */
  ghost predicate Retains(items: seq<Item>, low: nat, high: nat, keep: nat, budget: nat) {
    var limit := Limit(items, low, keep);
    && low < high <= limit <= |items|
    && (high == low + 1 || SizeOf(items, low, high) <= budget)
    && (high == limit || SizeOf(items, low, high + 1) > budget)
  }

  lemma {:induction false} LongerCostsMore(items: seq<Item>, low: nat, high: nat, other: nat)
    requires low <= high <= other <= |items|
    ensures SizeOf(items, low, high) <= SizeOf(items, low, other)
    decreases other
  {
    if high < other {
      LongerCostsMore(items, low, high, other - 1);
    }
  }

  /** The run that is kept is determined: the longest that fits. */
  lemma RetainsOneRun(items: seq<Item>, low: nat, high: nat, other: nat, keep: nat, budget: nat)
    requires Retains(items, low, high, keep, budget)
    requires Retains(items, low, other, keep, budget)
    ensures high == other
  {
    if high < other {
      LongerCostsMore(items, low, high + 1, other);
    } else if other < high {
      LongerCostsMore(items, low, other + 1, high);
    }
  }

  lemma {:induction false} SizeOfRun(items: seq<Item>, low: nat, high: nat, i: nat)
    requires low <= high <= |items| && i <= high - low
    ensures SizeOf(items[low..high], 0, i) == SizeOf(items, low, low + i)
  {
    if i > 0 {
      SizeOfRun(items, low, high, i - 1);
    }
  }

  /** A second prune of what the first one kept keeps all of it. */
  lemma SecondPruneKeepsAll(items: seq<Item>, low: nat, high: nat, keep: nat, budget: nat)
    requires Retains(items, low, high, keep, budget) && 0 < keep
    ensures Retains(items[low..high], 0, high - low, keep, budget)
  {
    SizeOfRun(items, low, high, high - low);
  }

  /** With room in the budget and enough archives, a prune keeps as many as was
      asked for exactly when no newer archive was found corrupt, or one was
      asked for: corrupt archives use up positions. */
  lemma KeepsCountExactly(items: seq<Item>, low: nat, high: nat, keep: nat, budget: nat)
    requires Retains(items, low, high, keep, budget)
    requires 0 < keep && low + keep <= |items| && SizeOf(items, low, |items|) <= budget
    ensures high - low == keep <==> low == 0 || keep == 1
  {
    if high < |items| {
      LongerCostsMore(items, low, high + 1, |items|);
    }
  }
}
