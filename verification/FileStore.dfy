/** operator/filesystem.go: atomic replacement of a file, step by step.

    A store is one directory tree seen as a map from paths to contents.  Every
    call may succeed, report an error, or be the last thing the process does; of a
    calm store none does but what the files themselves ask for. */
module FileStore {
  import opened Environment

  type Path = string
  type Bytes = string

  datatype RemoveResult = Removed | Missing | RemoveFailed | RemoveDied

  datatype ReadResult = Contents(data: Bytes) | NotFound | Unreadable

  /** The names os.CreateTemp may choose next to `destination`. */
  ghost predicate TemporaryNameOf(destination: Path, name: Path) {
    destination + ".tmp-" <= name
  }

  /** The longest of some names. */
  ghost function Longest(names: set<Path>): nat {
    if names == {} then 0
    else
      var name :| name in names;
      var rest := Longest(names - {name});
      if |name| > rest then |name| else rest
  }

  lemma {:induction false} LongestIsLongest(names: set<Path>)
    ensures forall name <- names :: |name| <= Longest(names)
  {
    if names != {} {
      var name :| name in names && Longest(names) ==
        var rest := Longest(names - {name}); if |name| > rest then |name| else rest;
      LongestIsLongest(names - {name});
    }
  }

  /** Some temporary name is always free. */
  lemma SomeNameIsFree(start: Path, names: set<Path>)
    ensures exists suffix: string :: start + suffix !in names
  {
    LongestIsLongest(names);
    var suffix := seq(Longest(names) + 1, i => '0');
    assert start + suffix !in names;
  }

  class Store {
    const calm: bool
    var files: map<Path, Bytes>
    /** Temporary files that some atomic write created and left behind. */
    ghost var debris: set<Path>

    ghost predicate Valid()
      reads this
    {
      debris <= files.Keys
    }

    /** What the tree holds apart from left-over temporary files. */
    ghost function View(): map<Path, Bytes>
      reads this
    {
      files - debris
    }

    constructor (calm: bool)
      ensures Valid() && files == map[] && View() == map[] && this.calm == calm
    {
      this.calm := calm;
      files := map[];
      debris := {};
    }

    /** From here on, left-over temporary files count as ordinary files. */
    ghost method Adopt()
      modifies this`debris
      ensures Valid() && View() == files
    {
      debris := {};
    }

    /** An empty temporary file next to the destination, under a free name. */
    method CreateTemp(destination: Path) returns (temporary: Path)
      requires Valid()
      modifies this
      ensures Valid() && View() == old(View())
      ensures TemporaryNameOf(destination, temporary) && temporary !in old(files)
      ensures files == old(files)[temporary := ""] && debris == old(debris) + {temporary}
    {
      SomeNameIsFree(destination + ".tmp-", files.Keys);
      var suffix: string :| destination + ".tmp-" + suffix !in files;
      temporary := destination + ".tmp-" + suffix;
      files := files[temporary := ""];
      debris := debris + {temporary};
      assert View() == old(View());
    }

    /** Writes the contents; an error or a crash may leave a part of them. */
    method Fill(temporary: Path, contents: Bytes) returns (r: IoResult)
      requires Valid() && temporary in debris
      modifies this`files
      ensures Valid() && View() == old(View()) && (calm ==> r.Done?)
      ensures files - {temporary} == old(files) - {temporary} && temporary in files
      ensures r.Done? ==> files[temporary] == contents
    {
      r := Chance(calm);
      var written := |contents|;
      if !r.Done? { written :| 0 <= written <= |contents|; }
      files := files[temporary := contents[..written]];
      assert View() == old(View());
    }

    /** Creates a temporary file, fills it, and renames it over the destination. */
    method AtomicWriteFile(destination: Path, contents: Bytes) returns (r: IoResult)
      requires Valid()
      modifies this
      ensures Valid()
      ensures View() == if r.Done? then old(View())[destination := contents] else old(View())
      ensures forall name <- debris - old(debris) :: TemporaryNameOf(destination, name)
      ensures r.Done? ==> debris <= old(debris) && files == old(files)[destination := contents]
      ensures calm ==> r.Done?
    {
      r := Chance(calm);
      if !r.Done? { return; }  // the parent is missing, or no temporary file can be made
      var temporary := CreateTemp(destination);
      r := Fill(temporary, contents);
      if r.Done? { r := Chance(calm); }  // the file is closed and renamed
      if r.Failed? { Discard(temporary); }
      if !r.Done? { return; }
      files := (files - {temporary})[destination := contents];
      debris := debris - {temporary, destination};
      assert View() == old(View())[destination := contents];
    }

    /** The deferred removal of a temporary file; its own error is ignored. */
    method Discard(temporary: Path)
      requires Valid() && temporary in debris
      modifies this
      ensures Valid() && View() == old(View()) && debris <= old(debris)
    {
      if * {
        files := files - {temporary};
        debris := debris - {temporary};
      }
      assert View() == old(View());
    }

    method Remove(path: Path) returns (r: RemoveResult)
      requires Valid()
      modifies this
      ensures Valid() && debris <= old(debris)
      ensures View() == if r.Removed? then old(View()) - {path} else old(View())
      ensures r.Missing? ==> path !in old(View())
      ensures calm ==> r.Removed? || r.Missing?
    {
      var step := Chance(calm);
      if !step.Done? { return if step.Died? then RemoveDied else RemoveFailed; }
      if path !in files { return Missing; }
      files := files - {path};
      debris := debris - {path};
      assert View() == old(View()) - {path};
      return Removed;
    }

    /** Empties the whole tree; an error or a crash may leave some of it. */
    method RemoveAll() returns (r: IoResult)
      requires Valid()
      modifies this
      ensures Valid() && debris <= old(debris)
      ensures r.Done? ==> files == map[]
      ensures !r.Done? ==> files.Keys <= old(files).Keys && forall p <- files :: files[p] == old(files)[p]
      ensures calm ==> r.Done?
    {
      r := Chance(calm);
      var gone := files.Keys;
      if !r.Done? { gone := *; }
      files := files - gone;
      debris := debris - gone;
    }

    method ReadFile(path: Path) returns (r: ReadResult)
      requires Valid()
      ensures r.Contents? ==> path in files && r.data == files[path]
      ensures r.NotFound? ==> path !in files
      ensures calm ==> !r.Unreadable?
    {
      var step := Chance(calm);
      if !step.Done? { return Unreadable; }
      if path !in files { return NotFound; }
      return Contents(files[path]);
    }
  }
}
