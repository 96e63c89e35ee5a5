/**
 * Trees (tree.py): a recursive snapshot of a directory. The children are
 * visited in sorted name order; a file child is stored as a blob, a directory
 * child as a tree of its own; the tree's body is the children's ids joined with
 * no separator, framed under the tag "tree" and written like any other object.
 */
module Trees {
  import opened Outcomes
  import opened Text
  import opened FileSystem
  import opened Sorting
  import opened Utils
  import opened Blobs

  // ------------------------------------------------------------- body

  predicate AllDigests(ids: seq<string>) {
    forall k :: 0 <= k < |ids| ==> IsHexDigest(ids[k])
  }

  /** read_child_data: the children's ids, ASCII-encoded and joined with no separator. */
  function JoinIds(ids: seq<string>): (body: seq<byte>)
    requires forall k :: 0 <= k < |ids| ==> IsAscii(ids[k])
    ensures forall i :: 0 <= i < |body| ==> body[i] < 128
    ensures AllDigests(ids) ==> |body| == 64 * |ids|
  {
    if ids == [] then [] else JoinIds(ids[..|ids| - 1]) + AsciiBytes(ids[|ids| - 1])
  }

  lemma AllDigestsAscii(ids: seq<string>)
    requires AllDigests(ids)
    ensures forall k :: 0 <= k < |ids| ==> IsAscii(ids[k])
  {
    forall k | 0 <= k < |ids| ensures IsAscii(ids[k]) {
      HexDigestIsAsciiWord(ids[k]);
    }
  }

  /** Each child id occupies the next 64 bytes of the body, so the body is 64 bytes per child. */
  lemma {:induction false} JoinIdsLayout(ids: seq<string>)
    requires AllDigests(ids)
    ensures forall k :: 0 <= k < |ids| ==> IsAscii(ids[k])
    ensures |JoinIds(ids)| == 64 * |ids|
    ensures forall k :: 0 <= k < |ids| ==> JoinIds(ids)[64 * k..64 * k + 64] == AsciiBytes(ids[k])
  {
    AllDigestsAscii(ids);
    if ids != [] {
      var init := ids[..|ids| - 1];
      JoinIdsLayout(init);
      var body := JoinIds(ids);
      assert body == JoinIds(init) + AsciiBytes(ids[|ids| - 1]);
      forall k | 0 <= k < |ids| ensures body[64 * k..64 * k + 64] == AsciiBytes(ids[k]) {
        if k < |init| {
          assert body[64 * k..64 * k + 64] == JoinIds(init)[64 * k..64 * k + 64];
        } else {
          assert body[64 * k..64 * k + 64] == AsciiBytes(ids[|ids| - 1]);
        }
      }
    }
  }

  /** The body determines the children: two id lists with the same body are the same list. */
  lemma JoinIdsInjective(a: seq<string>, b: seq<string>)
    requires AllDigests(a) && AllDigests(b)
    requires JoinIds(a) == JoinIds(b)
    ensures a == b
  {
    JoinIdsLayout(a);
    JoinIdsLayout(b);
    forall k | 0 <= k < |a| ensures a[k] == b[k] {
      assert AsciiBytes(a[k]) == JoinIds(a)[64 * k..64 * k + 64] == AsciiBytes(b[k]);
      DecodeEncodedAscii(a[k]);
      DecodeEncodedAscii(b[k]);
    }
  }

  // ------------------------------------------------------------- walk

  /** The two answers of check_path_type: "blob" for a regular file, "tree" for a directory. */
  datatype PathType = BlobPath | TreePath

  /**
   * check_path_type: a regular file must pass validate_file (so an empty one
   * fails), a directory passes validate_directory, anything else does not exist.
   */
  function CheckPathType(n: Option<Node>): (r: Result<PathType>)
    ensures r == Success(BlobPath) <==> ValidateFile(n).Success?
    ensures r == Success(TreePath) <==> ValidateDirectory(n).Success?
    ensures r.Failure? ==> r.error == ValidateFile(n).error
  {
    match n
    case None => Failure(FileNotFound)
    case Some(File(data)) => if data == [] then Failure(EmptyFile) else Success(BlobPath)
    case Some(Dir(_)) => Success(TreePath)
  }

  /** The ids gathered so far, the error that stopped the walk if any, and every write made. */
  datatype Gather = Gather(ids: seq<string>, failure: Option<Error>, writes: seq<Write>)

  /** make_header("tree", body), with the tag's ASCII check discharged once. */
  function TreeHeader(body: seq<byte>): seq<byte> {
    MakeHeader("tree", body)
  }

  /** The bytes stored for a tree with these children: its header followed by the joined ids. */
  function TreeFrame(ids: seq<string>): seq<byte>
    requires AllDigests(ids)
  {
    AllDigestsAscii(ids);
    TreeHeader(JoinIds(ids)) + JoinIds(ids)
  }

  /** The id of a tree with these children. */
  function TreeId(hash: Digest, ids: seq<string>): (id: string)
    requires AllDigests(ids)
    ensures IsHexDigest(id)
  {
    AllDigestsAscii(ids);
    CreateObjId(hash, TreeHeader(JoinIds(ids)), JoinIds(ids))
  }

  /** What Tree(path).store() does, given what the path resolves to. */
  function StoreTree(hash: Digest, n: Option<Node>): (o: Outcome<string>)
    ensures n.None? ==> o == Outcome(Failure(FileNotFound), [])
    ensures n.Some? && n.value.File? ==>
      o == Outcome(Failure(if n.value.data == [] then EmptyFile else NotADirectory), [])
    ensures o.result.Success? ==> n.Some? && n.value.Dir? && IsHexDigest(o.result.value)
    ensures o.result.Success? ==> o.writes != [] && o.writes[|o.writes| - 1].id == o.result.value
  {
    match CheckPathType(n)
    case Failure(e) => Outcome(Failure(e), [])
    case Success(BlobPath) => Outcome(Failure(NotADirectory), [])
    case Success(TreePath) => StoreDir(hash, n.value)
  }

  /** sorted(os.listdir(path)): a directory's names in ascending order, one per entry. */
  function SortedListing(entries: seq<(string, Node)>): (names: seq<string>)
    ensures |names| == |entries|
    ensures forall j :: 0 <= j < |names| ==> LookupIndex(entries, names[j]).Some?
  {
    SortedListingCovers(entries);
    SortNames(Listing(entries))
  }

  /** The walk over a directory: its children in sorted name order, then its own object. */
  function StoreDir(hash: Digest, dir: Node): (o: Outcome<string>)
    requires dir.Dir?
    ensures o.result.Success? ==> IsHexDigest(o.result.value)
    ensures o.result.Success? ==> o.writes != [] && o.writes[|o.writes| - 1].id == o.result.value
    decreases dir, 1
  {
    var g := StoreChildren(hash, dir, SortedListing(dir.entries));
    match g.failure
    case Some(e) => Outcome(Failure(e), g.writes)
    case None => Outcome(Success(TreeId(hash, g.ids)), g.writes + [Write(TreeId(hash, g.ids), TreeFrame(g.ids))])
  }

  /**
   * The loop over the given names of a directory, in order: each name is looked
   * up and stored; the first failure stops the walk, keeping the writes made so far.
   */
  function StoreChildren(hash: Digest, dir: Node, names: seq<string>): (g: Gather)
    requires dir.Dir?
    ensures AllDigests(g.ids)
    ensures |g.ids| <= |names|
    ensures g.failure.None? ==> |g.ids| == |names|
    decreases dir, 0, |names|
  {
    if names == [] then Gather([], None, [])
    else
      var g := StoreChildren(hash, dir, names[..|names| - 1]);
      if g.failure.Some? then g
      else
        var o := match LookupIndex(dir.entries, names[|names| - 1])
          case None => Outcome(Failure(FileNotFound), [])
          case Some(i) => StoreEntry(hash, dir.entries[i].1);
        match o.result
        case Failure(e) => Gather(g.ids, Some(e), g.writes + o.writes)
        case Success(id) => Gather(g.ids + [id], None, g.writes + o.writes)
  }

  /** One child: check_path_type, then handle_file (a blob) or handle_tree (a tree). */
  function StoreEntry(hash: Digest, child: Node): (o: Outcome<string>)
    ensures o.result.Success? ==> IsHexDigest(o.result.value)
    ensures o.result.Success? ==> o.writes != [] && o.writes[|o.writes| - 1].id == o.result.value
    decreases child, 2
  {
    match CheckPathType(Some(child))
    case Failure(e) => Outcome(Failure(e), [])
    case Success(BlobPath) => StoreBlob(hash, Some(child))
    case Success(TreePath) => StoreDir(hash, child)
  }

  // ------------------------------------------------------------- walk properties

  /** Once a prefix of the names has failed, the rest of the names change nothing. */
  lemma {:induction false} StoreChildrenStuck(hash: Digest, dir: Node, names: seq<string>, k: nat)
    requires dir.Dir? && k <= |names|
    requires StoreChildren(hash, dir, names[..k]).failure.Some?
    ensures StoreChildren(hash, dir, names) == StoreChildren(hash, dir, names[..k])
    decreases |names|
  {
    if k < |names| {
      var init := names[..|names| - 1];
      assert init[..k] == names[..k];
      StoreChildrenStuck(hash, dir, init, k);
    } else {
      assert names[..k] == names;
    }
  }

  /** Some file in the tree below n, or n itself, is empty. */
  predicate HasEmptyFile(n: Node) {
    match n
    case File(data) => data == []
    case Dir(entries) => exists i :: 0 <= i < |entries| && HasEmptyFile(entries[i].1)
  }

  /** Names are unique in every directory of the tree, as on any real filesystem. */
  predicate WellFormed(n: Node) {
    match n
    case File(_) => true
    case Dir(entries) => UniqueNames(entries) && forall i :: 0 <= i < |entries| ==> WellFormed(entries[i].1)
  }

  /** Every name of a directory's sorted listing names one of its entries, and every entry is named there. */
  lemma SortedListingCovers(entries: seq<(string, Node)>)
    ensures |SortNames(Listing(entries))| == |entries|
    ensures forall j :: 0 <= j < |SortNames(Listing(entries))| ==>
      LookupIndex(entries, SortNames(Listing(entries))[j]).Some?
    ensures UniqueNames(entries) ==> forall i :: 0 <= i < |entries| ==>
      exists j :: 0 <= j < |SortNames(Listing(entries))| && LookupIndex(entries, SortNames(Listing(entries))[j]) == Some(i)
  {
    var names := Listing(entries);
    var sorted := SortNames(names);
    SortNamesCorrect(names);
    assert |sorted| == |multiset(sorted)| == |multiset(names)| == |entries|;
    forall j | 0 <= j < |sorted| ensures LookupIndex(entries, sorted[j]).Some? {
      assert sorted[j] in multiset(names);
      var i :| 0 <= i < |names| && names[i] == sorted[j];
      assert entries[i].0 == sorted[j];
    }
    if UniqueNames(entries) {
      forall i | 0 <= i < |entries|
        ensures exists j :: 0 <= j < |sorted| && LookupIndex(entries, sorted[j]) == Some(i)
      {
        assert names[i] in multiset(sorted);
        var j :| 0 <= j < |sorted| && sorted[j] == names[i];
        LookupUnique(entries, i);
      }
    }
  }

  /** The entry a name of the listing stands for (the first one, should names repeat). */
  function ChildNamed(dir: Node, name: string): (child: Node)
    requires dir.Dir? && LookupIndex(dir.entries, name).Some?
    ensures child < dir
  {
    dir.entries[LookupIndex(dir.entries, name).value].1
  }

  /** No child named in names holds an empty file. */
  predicate NoEmptyChild(dir: Node, names: seq<string>)
    requires dir.Dir?
    requires forall j :: 0 <= j < |names| ==> LookupIndex(dir.entries, names[j]).Some?
  {
    forall j :: 0 <= j < |names| ==> !HasEmptyFile(ChildNamed(dir, names[j]))
  }

  /** One more name: the walk goes on failing, or it succeeds when the new child does. */
  lemma StoreChildrenStep(hash: Digest, dir: Node, names: seq<string>)
    requires dir.Dir? && names != [] && LookupIndex(dir.entries, names[|names| - 1]).Some?
    ensures StoreChildren(hash, dir, names).failure.None? <==>
      && StoreChildren(hash, dir, names[..|names| - 1]).failure.None?
      && StoreEntry(hash, ChildNamed(dir, names[|names| - 1])).result.Success?
  {
  }

  lemma NoEmptyChildStep(dir: Node, names: seq<string>, init: seq<string>)
    requires dir.Dir? && names != [] && init == names[..|names| - 1]
    requires forall j :: 0 <= j < |names| ==> LookupIndex(dir.entries, names[j]).Some?
    ensures forall j :: 0 <= j < |init| ==> LookupIndex(dir.entries, init[j]).Some?
    ensures NoEmptyChild(dir, names) <==>
      NoEmptyChild(dir, init) && !HasEmptyFile(ChildNamed(dir, names[|names| - 1]))
  {
    assert forall j :: 0 <= j < |init| ==> init[j] == names[j];
  }

  /** The walk over some names succeeds exactly when none of the children it visits holds an empty file. */
  lemma {:induction false} StoreChildrenSucceeds(hash: Digest, dir: Node, names: seq<string>)
    requires dir.Dir? && WellFormed(dir)
    requires forall j :: 0 <= j < |names| ==> LookupIndex(dir.entries, names[j]).Some?
    ensures StoreChildren(hash, dir, names).failure.None? <==> NoEmptyChild(dir, names)
    decreases dir, 0, |names|
  {
    if names != [] {
      NoEmptyChildStep(dir, names, names[..|names| - 1]);
      StoreChildrenSucceeds(hash, dir, names[..|names| - 1]);
      var child := ChildNamed(dir, names[|names| - 1]);
      StoreEntrySucceeds(hash, child);
      StoreChildrenStep(hash, dir, names);
    }
  }

  /** Storing one child succeeds exactly when it holds no empty file. */
  lemma {:induction false} StoreEntrySucceeds(hash: Digest, child: Node)
    requires WellFormed(child)
    ensures StoreEntry(hash, child).result.Success? <==> !HasEmptyFile(child)
    decreases child, 2
  {
    if child.Dir? {
      StoreDirSucceeds(hash, child);
    }
  }

  /** With unique names, the children the sorted listing names are all of the directory's entries. */
  lemma NoEmptyChildCovers(dir: Node)
    requires dir.Dir? && UniqueNames(dir.entries)
    ensures NoEmptyChild(dir, SortedListing(dir.entries)) <==> !HasEmptyFile(dir)
  {
    var sorted := SortedListing(dir.entries);
    SortedListingCovers(dir.entries);
    if !HasEmptyFile(dir) {
      forall j | 0 <= j < |sorted| ensures !HasEmptyFile(ChildNamed(dir, sorted[j])) {
        var i := LookupIndex(dir.entries, sorted[j]).value;
        assert ChildNamed(dir, sorted[j]) == dir.entries[i].1;
      }
    }
    if NoEmptyChild(dir, sorted) {
      forall i | 0 <= i < |dir.entries| ensures !HasEmptyFile(dir.entries[i].1) {
        var j :| 0 <= j < |sorted| && LookupIndex(dir.entries, sorted[j]) == Some(i);
        assert ChildNamed(dir, sorted[j]) == dir.entries[i].1;
      }
    }
  }

  /** A directory's snapshot succeeds exactly when no file anywhere below it is empty. */
  lemma {:induction false} StoreDirSucceeds(hash: Digest, dir: Node)
    requires dir.Dir? && WellFormed(dir)
    ensures StoreDir(hash, dir).result.Success? <==> !HasEmptyFile(dir)
    decreases dir, 1
  {
    NoEmptyChildCovers(dir);
    StoreChildrenSucceeds(hash, dir, SortedListing(dir.entries));
  }

  /** Tree(path).store() succeeds exactly on an existing directory with no empty file below it. */
  lemma StoreTreeSucceeds(hash: Digest, n: Option<Node>)
    requires n.Some? ==> WellFormed(n.value)
    ensures StoreTree(hash, n).result.Success? <==> n.Some? && n.value.Dir? && !HasEmptyFile(n.value)
  {
    if n.Some? && n.value.Dir? {
      StoreDirSucceeds(hash, n.value);
    }
  }

  // ------------------------------------------------------------- listing order

  /** The same node is found under name in both directories, or in neither. */
  predicate SameChild(d1: Node, d2: Node, name: string)
    requires d1.Dir? && d2.Dir?
  {
    && (LookupIndex(d1.entries, name).Some? <==> LookupIndex(d2.entries, name).Some?)
    && (LookupIndex(d1.entries, name).Some? ==> ChildNamed(d1, name) == ChildNamed(d2, name))
  }

  /** Walking the same names over two directories that agree on those names gives the same result. */
  lemma {:induction false} StoreChildrenSameChildren(hash: Digest, d1: Node, d2: Node, names: seq<string>)
    requires d1.Dir? && d2.Dir?
    requires forall j :: 0 <= j < |names| ==> SameChild(d1, d2, names[j])
    ensures StoreChildren(hash, d1, names) == StoreChildren(hash, d2, names)
    decreases |names|
  {
    if names != [] {
      var init := names[..|names| - 1];
      assert forall j :: 0 <= j < |init| ==> init[j] == names[j];
      StoreChildrenSameChildren(hash, d1, d2, init);
      assert SameChild(d1, d2, names[|names| - 1]);
    }
  }

  /** In a list of distinct names every name that occurs, occurs once. */
  lemma {:induction false} DistinctCount(a: seq<string>, x: string)
    requires forall i, j :: 0 <= i < j < |a| ==> a[i] != a[j]
    ensures multiset(a)[x] == if x in a then 1 else 0
  {
    if a != [] {
      var init := a[..|a| - 1];
      assert a == init + [a[|a| - 1]];
      DistinctCount(init, x);
      if x == a[|a| - 1] {
        assert x !in init;
      }
    }
  }

  /** Two listings of the same entries with unique names hold the same names. */
  lemma ListingsSameNames(e1: seq<(string, Node)>, e2: seq<(string, Node)>)
    requires UniqueNames(e1) && UniqueNames(e2)
    requires multiset(e1) == multiset(e2)
    ensures multiset(Listing(e1)) == multiset(Listing(e2))
  {
    var a, b := Listing(e1), Listing(e2);
    forall x ensures multiset(a)[x] == multiset(b)[x] {
      DistinctCount(a, x);
      DistinctCount(b, x);
      if x in a {
        var i :| 0 <= i < |a| && a[i] == x;
        assert e1[i] in multiset(e2);
        var j :| 0 <= j < |e2| && e2[j] == e1[i];
        assert b[j] == x;
      }
      if x in b {
        var j :| 0 <= j < |b| && b[j] == x;
        assert e2[j] in multiset(e1);
        var i :| 0 <= i < |e1| && e1[i] == e2[j];
        assert a[i] == x;
      }
    }
  }

  /** Two listings of the same entries with unique names find the same node under every name. */
  lemma ListingsSameChildren(e1: seq<(string, Node)>, e2: seq<(string, Node)>, name: string)
    requires UniqueNames(e1) && UniqueNames(e2)
    requires multiset(e1) == multiset(e2)
    ensures SameChild(Dir(e1), Dir(e2), name)
  {
    if LookupIndex(e1, name).Some? {
      var i := LookupIndex(e1, name).value;
      assert e1[i] in multiset(e2);
      var j :| 0 <= j < |e2| && e2[j] == e1[i];
      LookupUnique(e2, j);
    }
    if LookupIndex(e2, name).Some? {
      var j := LookupIndex(e2, name).value;
      assert e2[j] in multiset(e1);
      var i :| 0 <= i < |e1| && e1[i] == e2[j];
      LookupUnique(e1, i);
    }
  }

  /**
   * The order os.listdir happens to return does not matter: two listings of
   * the same entries give the same tree id and the same writes.
   */
  lemma StoreDirListingOrder(hash: Digest, e1: seq<(string, Node)>, e2: seq<(string, Node)>)
    requires UniqueNames(e1) && UniqueNames(e2)
    requires multiset(e1) == multiset(e2)
    ensures StoreDir(hash, Dir(e1)) == StoreDir(hash, Dir(e2))
  {
    ListingsSameNames(e1, e2);
    SortCanonical(Listing(e1), Listing(e2));
    var names := SortedListing(e1);
    forall j | 0 <= j < |names| ensures SameChild(Dir(e1), Dir(e2), names[j]) {
      ListingsSameChildren(e1, e2, names[j]);
    }
    StoreChildrenSameChildren(hash, Dir(e1), Dir(e2), names);
  }

  // ------------------------------------------------------------- what gets written

  /**
   * A walk that did not fail took each visited child's id, in order, and kept
   * every write each visited child made.
   */
  lemma {:induction false} StoreChildrenCollects(hash: Digest, dir: Node, names: seq<string>)
    requires dir.Dir?
    requires forall j :: 0 <= j < |names| ==> LookupIndex(dir.entries, names[j]).Some?
    ensures StoreChildren(hash, dir, names).failure.None? ==> forall k :: 0 <= k < |names| ==>
      StoreEntry(hash, ChildNamed(dir, names[k])).result == Success(StoreChildren(hash, dir, names).ids[k])
    ensures StoreChildren(hash, dir, names).failure.None? ==> forall k, w :: 0 <= k < |names| ==>
      w in StoreEntry(hash, ChildNamed(dir, names[k])).writes ==> w in StoreChildren(hash, dir, names).writes
    decreases |names|
  {
    if names != [] {
      var init := names[..|names| - 1];
      assert forall j :: 0 <= j < |init| ==> init[j] == names[j];
      StoreChildrenCollects(hash, dir, init);
      var g := StoreChildren(hash, dir, names);
      var g0 := StoreChildren(hash, dir, init);
      if g.failure.None? {
        var o := StoreEntry(hash, ChildNamed(dir, names[|names| - 1]));
        assert g == Gather(g0.ids + [o.result.value], None, g0.writes + o.writes);
        forall k | 0 <= k < |names| ensures StoreEntry(hash, ChildNamed(dir, names[k])).result == Success(g.ids[k]) {
          if k < |init| { assert g.ids[k] == g0.ids[k]; }
        }
      }
    }
  }

  /**
   * A successful snapshot of a directory: one id per entry; each child's id is
   * what storing that child returns (a blob id for a file, a tree id for a
   * directory); every write of every child is kept; and the last write is the
   * tree's own frame under the returned id, which names exactly that frame.
   */
  lemma StoreDirShape(hash: Digest, dir: Node)
    requires dir.Dir?
    ensures var o := StoreDir(hash, dir); var names := SortedListing(dir.entries);
      var g := StoreChildren(hash, dir, names);
      o.result.Success? ==>
        && |g.ids| == |dir.entries|
        && (forall k :: 0 <= k < |names| ==> StoreEntry(hash, ChildNamed(dir, names[k])).result == Success(g.ids[k]))
        && (forall k, w :: 0 <= k < |names| ==> w in StoreEntry(hash, ChildNamed(dir, names[k])).writes ==> w in o.writes)
        && o.result.value == hash(TreeFrame(g.ids))
        && o.writes[|o.writes| - 1] == Write(o.result.value, TreeFrame(g.ids))
  {
    StoreChildrenCollects(hash, dir, SortedListing(dir.entries));
  }

  /**
   * After a successful store into any object area, the tree's object and the
   * object of every write made on the way are present.
   */
  lemma StoreTreePresent(hash: Digest, n: Option<Node>, m: Objects)
    ensures var o := StoreTree(hash, n);
      o.result.Success? ==>
        && SplitId(o.result.value) in InsertAll(m, o.writes)
        && forall i :: 0 <= i < |o.writes| ==> SplitId(o.writes[i].id) in InsertAll(m, o.writes)
  {
    var o := StoreTree(hash, n);
    InsertAllKeeps(m, o.writes);
  }

  /** Storing the same tree again returns the same id and leaves the object area as it was. */
  lemma StoreTreeTwice(hash: Digest, n: Option<Node>, m: Objects)
    ensures var o := StoreTree(hash, n);
      InsertAll(InsertAll(m, o.writes), o.writes) == InsertAll(m, o.writes)
  {
    InsertAllIdempotent(m, StoreTree(hash, n).writes);
  }

  // ------------------------------------------------------------- the walk, step by step

  /** Visiting the next name: the child's outcome is appended, success or not. */
  lemma WalkStep(hash: Digest, dir: Node, names: seq<string>, i: nat)
    requires dir.Dir? && i < |names| && LookupIndex(dir.entries, names[i]).Some?
    requires StoreChildren(hash, dir, names[..i]).failure.None?
    ensures var g := StoreChildren(hash, dir, names[..i]);
      var o := StoreEntry(hash, ChildNamed(dir, names[i]));
      StoreChildren(hash, dir, names[..i + 1]) ==
        if o.result.Success? then Gather(g.ids + [o.result.value], None, g.writes + o.writes)
        else Gather(g.ids, Some(o.result.error), g.writes + o.writes)
  {
    assert names[..i + 1][..i] == names[..i];
  }

  /** A failure at some child is the failure of the whole directory, with the writes made until then. */
  lemma WalkFails(hash: Digest, dir: Node, i: nat, ids: seq<string>, e: Error, ws: seq<Write>)
    requires dir.Dir? && i <= |SortedListing(dir.entries)|
    requires StoreChildren(hash, dir, SortedListing(dir.entries)[..i]) == Gather(ids, Some(e), ws)
    ensures StoreDir(hash, dir) == Outcome(Failure(e), ws)
    ensures StoreChildren(hash, dir, SortedListing(dir.entries)).ids == ids
  {
    StoreChildrenStuck(hash, dir, SortedListing(dir.entries), i);
  }

  /** What self.children holds once store() has returned, whether it succeeded or not. */
  function GatheredIds(hash: Digest, n: Option<Node>): (ids: seq<string>)
    ensures AllDigests(ids)
    ensures StoreTree(hash, n).result.Success? ==> |ids| == |n.value.entries|
  {
    match CheckPathType(n)
    case Success(TreePath) => StoreChildren(hash, n.value, SortedListing(n.value.entries)).ids
    case _ => []
  }

  /** The node a path argument names, or an empty file when it names none: the measure of the recursion. */
  ghost function NodeAt(fs: Node, arg: PathArg): Node {
    match ResolveArg(fs, arg)
    case Some(n) => n
    case None => File([])
  }

  class Tree {
    const treePath: PathArg
    var children: seq<string>
    var pathType: Option<PathType>
    var data: Option<seq<byte>>
    var header: Option<seq<byte>>
    var objectId: Option<string>

    constructor (treePath: PathArg)
      ensures this.treePath == treePath
      ensures children == [] && pathType == None
      ensures data == None && header == None && objectId == None
    {
      this.treePath := treePath;
      children, pathType := [], None;
      data, header, objectId := None, None, None;
    }

    /** Tree(tree_path): a missing path is refused. */
    static method New(treePath: PathArg) returns (r: Result<Tree>)
      ensures r.Success? <==> treePath != NoPath
      ensures r.Failure? ==> r.error == MissingPath
      ensures r.Success? ==> fresh(r.value) && r.value.treePath == treePath
      ensures r.Success? ==> r.value.children == [] && r.value.objectId == None
    {
      if treePath == NoPath {
        return Failure(MissingPath);
      }
      var t := new Tree(treePath);
      return Success(t);
    }

    /** read_child_data(): the children's ids joined, 64 bytes per child. */
    function ReadChildData(): (body: seq<byte>)
      reads this
      requires AllDigests(children)
      ensures |body| == 64 * |children|
      ensures forall k :: 0 <= k < |children| ==> body[64 * k..64 * k + 64] == AsciiBytes(children[k])
    {
      JoinIdsLayout(children);
      JoinIds(children)
    }

    /**
     * store(): reset the children, check the path, visit the sorted listing
     * storing each child, then frame the joined ids under "tree", name the
     * frame by its digest and write it.
     */
    method Store(fs: Node, area: ObjectArea, hash: Digest) returns (r: Result<string>)
      modifies this, area
      decreases NodeAt(fs, treePath), 3
      ensures r == StoreTree(hash, ResolveArg(fs, treePath)).result
      ensures area.objects == InsertAll(old(area.objects), StoreTree(hash, ResolveArg(fs, treePath)).writes)
      ensures children == GatheredIds(hash, ResolveArg(fs, treePath))
      ensures CheckPathType(ResolveArg(fs, treePath)).Success? ==>
        pathType == Some(CheckPathType(ResolveArg(fs, treePath)).value)
      ensures CheckPathType(ResolveArg(fs, treePath)).Failure? ==> pathType == old(pathType)
      ensures r.Failure? ==> data == old(data) && header == old(header) && objectId == old(objectId)
      ensures r.Success? ==> data == Some(ReadChildData())
      ensures r.Success? ==> header == Some(TreeHeader(data.value)) && objectId == Some(r.value)
    {
      var n := ResolveArg(fs, treePath);
      children := [];
      var kind := CheckPathType(n);
      if kind.Failure? {
        return Failure(kind.error);
      }
      pathType := Some(kind.value);
      if kind.value == BlobPath {
        // os.listdir on a regular file
        return Failure(NotADirectory);
      }
      r := StoreListing(fs, area, hash, treePath.path, n.value);
    }

    /**
     * The rest of store() once the path is known to be a directory: the loop
     * over its children, then the tree's own object.
     */
    method StoreListing(fs: Node, area: ObjectArea, hash: Digest, p: Path, dir: Node) returns (r: Result<string>)
      requires Resolve(fs, p) == Some(dir) && dir.Dir? && children == []
      modifies this`children, this`data, this`header, this`objectId, area
      decreases dir, 2
      ensures r == StoreDir(hash, dir).result
      ensures area.objects == InsertAll(old(area.objects), StoreDir(hash, dir).writes)
      ensures children == StoreChildren(hash, dir, SortedListing(dir.entries)).ids
      ensures r.Failure? ==> data == old(data) && header == old(header) && objectId == old(objectId)
      ensures r.Success? ==> data == Some(ReadChildData())
      ensures r.Success? ==> header == Some(TreeHeader(data.value)) && objectId == Some(r.value)
    {
      ghost var g := StoreChildren(hash, dir, SortedListing(dir.entries));
      var failure := VisitChildren(fs, area, hash, p, dir);
      if failure.Some? {
        return Failure(failure.value);
      }
      var body := ReadChildData();
      data := Some(body);
      var h := TreeHeader(body);
      header := Some(h);
      var id := CreateObjId(hash, h, body);
      objectId := Some(id);
      assert StoreDir(hash, dir) == Outcome(Success(id), g.writes + [Write(id, h + body)]);
      InsertAllAppend(old(area.objects), g.writes, [Write(id, h + body)]);
      InsertAllSingle(area.objects, Write(id, h + body));
      area.WriteToDisk(id, h + body);
      r := Success(id);
    }

    /**
     * The loop of store(): each name of the sorted listing is checked and
     * handed to handle_tree or handle_file, and its id appended to the
     * children; the first failure ends the loop.
     */
    method VisitChildren(fs: Node, area: ObjectArea, hash: Digest, p: Path, dir: Node)
      returns (failure: Option<Error>)
      requires Resolve(fs, p) == Some(dir) && dir.Dir? && children == []
      modifies this`children, area
      decreases dir, 1
      ensures failure == StoreChildren(hash, dir, SortedListing(dir.entries)).failure
      ensures children == StoreChildren(hash, dir, SortedListing(dir.entries)).ids
      ensures area.objects == InsertAll(old(area.objects), StoreChildren(hash, dir, SortedListing(dir.entries)).writes)
    {
      var sortedDir := SortedListing(dir.entries);
      ghost var writes: seq<Write> := [];
      var i := 0;
      while i < |sortedDir|
        invariant 0 <= i <= |sortedDir|
        invariant StoreChildren(hash, dir, sortedDir[..i]) == Gather(children, None, writes)
        invariant area.objects == InsertAll(old(area.objects), writes)
      {
        var name := sortedDir[i];
        ResolveChild(fs, p, name);
        ghost var o := StoreEntry(hash, ChildNamed(dir, name));
        WalkStep(hash, dir, sortedDir, i);
        var stored := HandleChild(fs, area, hash, p, name, dir);
        InsertAllAppend(old(area.objects), writes, o.writes);
        writes := writes + o.writes;
        if stored.Failure? {
          WalkFails(hash, dir, i + 1, children, stored.error, writes);
          return Some(stored.error);
        }
        children := children + [stored.value];
        i := i + 1;
      }
      assert sortedDir[..i] == sortedDir;
      return None;
    }

    /** One pass of the loop: check_path_type on the child, then handle_tree or handle_file. */
    static method HandleChild(fs: Node, area: ObjectArea, hash: Digest, p: Path, name: string, dir: Node)
      returns (r: Result<string>)
      requires Resolve(fs, p) == Some(dir) && dir.Dir? && LookupIndex(dir.entries, name).Some?
      modifies area
      decreases dir, 0
      ensures r == StoreEntry(hash, ChildNamed(dir, name)).result
      ensures area.objects == InsertAll(old(area.objects), StoreEntry(hash, ChildNamed(dir, name)).writes)
    {
      ResolveChild(fs, p, name);
      var childKind := CheckPathType(Resolve(fs, p + [name]));
      if childKind.Failure? {
        return Failure(childKind.error);
      } else if childKind.value == TreePath {
        r := HandleTree(fs, area, hash, p, name);
      } else {
        r := HandleFile(fs, area, hash, p, name);
      }
    }

    /** handle_tree(path, child): a fresh tree for the child directory, stored recursively. */
    static method HandleTree(fs: Node, area: ObjectArea, hash: Digest, path: Path, child: string)
      returns (r: Result<string>)
      modifies area
      decreases NodeAt(fs, At(path + [child])), 4
      ensures r == StoreTree(hash, Resolve(fs, path + [child])).result
      ensures area.objects == InsertAll(old(area.objects), StoreTree(hash, Resolve(fs, path + [child])).writes)
    {
      var t := new Tree(At(path + [child]));
      r := t.Store(fs, area, hash);
    }

    /** handle_file(path, child): a fresh blob for the child file, stored. */
    static method HandleFile(fs: Node, area: ObjectArea, hash: Digest, path: Path, child: string)
      returns (r: Result<string>)
      modifies area
      ensures r == StoreBlob(hash, Resolve(fs, path + [child])).result
      ensures area.objects == InsertAll(old(area.objects), StoreBlob(hash, Resolve(fs, path + [child])).writes)
    {
      var b := new Blob(At(path + [child]));
      r := b.Store(fs, area, hash);
    }
  }
}
