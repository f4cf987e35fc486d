/** operator/backup_archive.go: the names and links that an archive admits, in
    terms of their text, and its limits in numbers. */
module BackupNames {
  import opened Wrappers
  import opened Texts
  import opened BackupTree
  import opened BackupArchive
  import Lines

  // --------------------------------------------------------------------- names

  /** `segment` stands between two slashes of the name, the ends counted as slashes. */
  ghost predicate HasSegment(name: string, segment: string) {
    exists before, after: string :: "/" + name + "/" == before + "/" + segment + "/" + after
  }

  /** One of the segments that a split finds. */
  lemma {:induction false} SegmentsExactly(name: string, segment: string)
    requires '/' !in segment
    ensures HasSegment(name, segment) <==> segment in Lines.Split(name, '/')
  {
    if '/' !in name {
      Lines.SplitOfLine(name, '/');
      OneSegment(name, segment);
    } else {
      var i := IndexOf(name, '/');
      var first, rest := name[..i], name[i + 1..];
      assert name == first + ['/'] + rest;
      assert '/' !in first;
      Lines.SplitOfFirst(first, rest, '/');
      SegmentsExactly(rest, segment);
      FirstSegment(first, rest, segment);
    }
  }

  lemma OneSegment(name: string, segment: string)
    requires '/' !in name && '/' !in segment
    ensures HasSegment(name, segment) <==> name == segment
  {
    if before, after: string :| "/" + name + "/" == before + "/" + segment + "/" + after {
      assert |before| + |segment| + |after| == |name|;
      CutAtFirst(name, "", before, segment, after);
    }
    if name == segment { assert "/" + name + "/" == "" + "/" + segment + "/" + ""; }
  }

  lemma FirstSegment(first: string, rest: string, segment: string)
    requires '/' !in first && '/' !in segment
    ensures HasSegment(first + "/" + rest, segment) <==> first == segment || HasSegment(rest, segment)
  {
    var name := first + "/" + rest;
    var whole := "/" + name + "/";
    assert whole == "/" + first + "/" + (rest + "/");
    assert whole[|first| + 1..] == "/" + rest + "/";
    if before, after: string :| whole == before + "/" + segment + "/" + after {
      CutAtFirst(first, rest + "/", before, segment, after);
      if before != "" {
        assert whole[|first| + 1..] == before[|first| + 1..] + "/" + segment + "/" + after;
      }
    }
    if first == segment { assert whole == "" + "/" + segment + "/" + (rest + "/"); }
    if before, after: string :| "/" + rest + "/" == before + "/" + segment + "/" + after {
      assert whole == ("/" + first + before) + "/" + segment + "/" + after;
    }
  }

  /** The first of two segments is the one before every later slash. */
  lemma CutAtFirst(first: string, rest: string, before: string, segment: string, after: string)
    requires "/" + first + "/" + rest == before + "/" + segment + "/" + after
    requires '/' !in first && '/' !in segment
    ensures if before == "" then first == segment else |before| > |first|
  {
    var whole := "/" + first + "/" + rest;
    assert whole[1..|first| + 1] == first && whole[|first| + 1] == '/';
    assert forall i | 1 <= i <= |first| :: whole[i] == first[i - 1];
    assert whole[|before|] == '/';
    if before == "" {
      assert whole[1..|segment| + 1] == segment && whole[|segment| + 1] == '/';
      assert forall i | 1 <= i <= |segment| :: whole[i] == segment[i - 1];
    }
  }

  function Slashes(name: string): nat {
    if name == "" then 0 else (if name[0] == '/' then 1 else 0) + Slashes(name[1..])
  }

  lemma {:induction false} SlashesSplit(name: string)
    ensures |Lines.Split(name, '/')| == Slashes(name) + 1
  {
    if name != "" { SlashesSplit(name[1..]); }
  }

  /** A name is admitted exactly when it has at most 31 slashes, no control
      character, and no segment that is empty, a dot or two dots: so it neither
      begins nor ends with a slash, has no two in a row, and cannot climb. */
  lemma SafeMemberExactly(name: string)
    ensures SafeMember(Lines.Split(name, '/'))
       <==> && Slashes(name) <= 31 && '\0' !in name && '\r' !in name && '\n' !in name
            && !HasSegment(name, "") && !HasSegment(name, ".") && !HasSegment(name, "..")
  {
    var path := Lines.Split(name, '/');
    SlashesSplit(name);
    SegmentsExactly(name, "");
    SegmentsExactly(name, ".");
    SegmentsExactly(name, "..");
    Lines.SplitHasNoSeparator(name, '/');
    SplitKeeps(name, '\0');
    SplitKeeps(name, '\r');
    SplitKeeps(name, '\n');
    hide HasSegment;
  }

  lemma {:induction false} SplitKeeps(name: string, c: char)
    requires c != '/'
    ensures c in name <==> exists segment <- Lines.Split(name, '/') :: c in segment
  {
    if name != "" {
      SplitKeeps(name[1..], c);
      var rest, all := Lines.Split(name[1..], '/'), Lines.Split(name, '/');
      if name[0] == '/' {
        assert all == [""] + rest;
      } else {
        assert all == [[name[0]] + rest[0]] + rest[1..];
        KeepsFirst(name[0], rest, c);
      }
    }
  }

  lemma KeepsFirst(head: char, rest: seq<string>, c: char)
    requires rest != []
    ensures (exists segment <- [[head] + rest[0]] + rest[1..] :: c in segment)
       <==> c == head || exists segment <- rest :: c in segment
  {
    var all := [[head] + rest[0]] + rest[1..];
    assert rest == [rest[0]] + rest[1..];
    assert c in all[0] <==> c == head || c in rest[0];
    assert all[0] in all;
  }

  // --------------------------------------------------------------------- links

  /** `there` is where one part of a link's target leads from directory `here`. */
  predicate Follows(here: Path, part: string, there: Path) {
    if part == "" || part == "." then there == here
    else if part == ".." then here != [] && |there| == |here| - 1 && there <= here
    else |there| == |here| + 1 && here < there && there[|here|] == part
  }

  /** `trail` follows the parts of a target one by one, never above the root. */
  predicate Trail(trail: seq<Path>, parts: seq<string>) {
    |trail| == |parts| + 1 && forall i | 0 <= i < |parts| :: Follows(trail[i], parts[i], trail[i + 1])
  }

  /** The link called `path` leads, part by part from its own directory, to a
      place under the first segment of its name. */
  ghost predicate LeadsInside(path: Path, parts: seq<string>)
    requires path != []
  {
    exists trail ::
      && Trail(trail, parts) && trail[0] == path[..|path| - 1]
      && trail[|parts|] != [] && trail[|parts|][0] == path[0]
  }

  lemma {:induction false} ResolveFollows(at: Path, parts: seq<string>)
    ensures Resolve(at, parts).Some? ==>
              exists trail :: Trail(trail, parts) && trail[0] == at && trail[|parts|] == Resolve(at, parts).value
    decreases |parts|
  {
    if parts == [] {
      assert Trail([at], parts);
    } else if Resolve(at, parts).Some? {
      var next := if parts[0] == "" || parts[0] == "." then at
                  else if parts[0] == ".." then at[..|at| - 1] else at + [parts[0]];
      assert Resolve(at, parts) == Resolve(next, parts[1..]);
      ResolveFollows(next, parts[1..]);
      var later :| Trail(later, parts[1..]) && later[0] == next && later[|parts| - 1] == Resolve(at, parts).value;
      var trail := [at] + later;
      assert Follows(at, parts[0], next);
      assert forall i | 0 < i < |parts| :: parts[i] == parts[1..][i - 1] && trail[i] == later[i - 1];
      assert Trail(trail, parts) && trail[|parts|] == later[|parts| - 1];
    }
  }

  lemma {:induction false} TrailResolves(trail: seq<Path>, parts: seq<string>)
    requires Trail(trail, parts)
    ensures Resolve(trail[0], parts) == Some(trail[|parts|])
    decreases |parts|
  {
    if parts != [] {
      assert Follows(trail[0], parts[0], trail[1]);
      assert trail[1] == if parts[0] == "" || parts[0] == "." then trail[0]
                         else if parts[0] == ".." then trail[0][..|trail[0]| - 1] else trail[0] + [parts[0]];
      assert forall i | 0 <= i < |parts| - 1 :: trail[1..][i] == trail[i + 1] && parts[1..][i] == parts[i + 1];
      TrailResolves(trail[1..], parts[1..]);
    }
  }

  /** A link is admitted exactly when its target is a relative, printable text
      that leads to a place under the first segment of the link's name. */
  lemma SafeLinkExactly(path: Path, target: Target)
    requires path != []
    ensures SafeLink(path, target)
       <==> && !target.absolute && target.parts != [] && target.parts != [""]
            && (forall part <- target.parts :: '\0' !in part && '\r' !in part && '\n' !in part)
            && LeadsInside(path, target.parts)
  {
    var at, parts := path[..|path| - 1], target.parts;
    ResolveFollows(at, parts);
    if trail :| Trail(trail, parts) && trail[0] == at { TrailResolves(trail, parts); }
    if LeadsInside(path, parts) {
      var trail :| && Trail(trail, parts) && trail[0] == at
                   && trail[|parts|] != [] && trail[|parts|][0] == path[0];
      TrailResolves(trail, parts);
    }
  }

  // -------------------------------------------------------------------- limits

  function Bytes(ms: seq<Member>): nat {
    if ms == [] then 0
    else (match ms[0].item case FileItem(data) => |data| case _ => 0) + Bytes(ms[1..])
  }

  lemma {:induction false} BytesAreTotal(ms: seq<Member>)
    ensures Bytes(ms) == TotalSize(ms)
  {
    if |ms| == 1 {
    } else if ms != [] {
      var front, last := ms[..|ms| - 1], ms[|ms| - 1];
      BytesAreTotal(front);
      BytesOfLast(front, last);
      assert front + [last] == ms;
    }
  }

  lemma {:induction false} BytesOfLast(ms: seq<Member>, last: Member)
    ensures Bytes(ms + [last]) == Bytes(ms) + Bytes([last])
  {
    if ms == [] {
      assert ms + [last] == [last];
    } else {
      assert (ms + [last])[1..] == ms[1..] + [last];
      BytesOfLast(ms[1..], last);
    }
  }

  /** At most 100000 members, 8 GiB of file contents in all and 1 GiB in one
      file, and every name and link admitted. */
  lemma WithinLimitsExactly(ms: seq<Member>)
    ensures WithinLimits(ms)
       <==> && |ms| <= 100000 && Bytes(ms) <= 8589934592
            && forall m <- ms :: && SafeMember(m.path)
                                 && (m.item.FileItem? ==> |m.item.data| <= 1073741824)
                                 && (m.item.LinkItem? ==> SafeLink(m.path, m.item.target))
  {
    BytesAreTotal(ms);
  }
}
