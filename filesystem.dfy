/**
 * The working directory the object model snapshots, as a value: the only
 * filesystem facts the code consults are whether a path is a regular file,
 * whether it exists, its bytes, and a directory's listing.
 */
module FileSystem {
  import opened Outcomes
  import opened Text

  /** A regular file with its bytes, or a directory with its entries in listing order. */
  datatype Node = File(data: seq<byte>) | Dir(entries: seq<(string, Node)>)

  /** A path as its components below the root of the snapshot. */
  type Path = seq<string>

  /** A path argument as the code receives it: None, the empty string, or a path. */
  datatype PathArg = NoPath | EmptyPath | At(path: Path)

  /** os.listdir: the entry names in listing order. */
  function Listing(entries: seq<(string, Node)>): (names: seq<string>)
    ensures |names| == |entries|
    ensures forall i :: 0 <= i < |entries| ==> names[i] == entries[i].0
  {
    seq(|entries|, i requires 0 <= i < |entries| => entries[i].0)
  }

  /** The position of the entry called name, if the directory has one. */
  function LookupIndex(entries: seq<(string, Node)>, name: string): (r: Option<nat>)
    ensures r.Some? ==> r.value < |entries| && entries[r.value].0 == name
    ensures r.Some? ==> forall j :: 0 <= j < r.value ==> entries[j].0 != name
    ensures r.None? <==> forall j :: 0 <= j < |entries| ==> entries[j].0 != name
  {
    if entries == [] then None
    else if entries[0].0 == name then Some(0)
    else match LookupIndex(entries[1..], name)
      case None => None
      case Some(i) => Some(i + 1)
  }

  /** The node reached by following path from the root, if any. */
  function Resolve(fs: Node, path: Path): Option<Node>
  {
    if path == [] then Some(fs)
    else match Resolve(fs, path[..|path| - 1])
      case Some(Dir(entries)) =>
        (match LookupIndex(entries, path[|path| - 1])
          case Some(i) => Some(entries[i].1)
          case None => None)
      case _ => None
  }

  function ResolveArg(fs: Node, arg: PathArg): Option<Node> {
    match arg
    case At(p) => Resolve(fs, p)
    case _ => None
  }

  /** Stepping into a directory entry: path + [name] resolves to that entry's node. */
  lemma ResolveChild(fs: Node, path: Path, name: string)
    ensures Resolve(fs, path + [name]) ==
      match Resolve(fs, path)
      case Some(Dir(entries)) =>
        (match LookupIndex(entries, name) case Some(i) => Some(entries[i].1) case None => None)
      case _ => None
  {
    assert (path + [name])[..|path|] == path;
  }

  /** No two entries of a directory share a name, as on any real filesystem. */
  predicate UniqueNames(entries: seq<(string, Node)>) {
    forall i, j :: 0 <= i < j < |entries| ==> entries[i].0 != entries[j].0
  }

  /** With unique names, the entry called name is found wherever it stands. */
  lemma LookupUnique(entries: seq<(string, Node)>, k: nat)
    requires UniqueNames(entries) && k < |entries|
    ensures LookupIndex(entries, entries[k].0) == Some(k)
  {
  }
}
