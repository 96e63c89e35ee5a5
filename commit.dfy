/**
 * Commits (commit.py): the "Key:Value" record a commit is stored as, its
 * parse back into fields, the HEAD -> ref -> tip lookup that finds the parent,
 * and store(), which snapshots the directory as a tree, writes the commit
 * object and advances the branch ref to it.
 */
module Commits {
  import opened Outcomes
  import opened Text
  import opened FileSystem
  import opened Utils
  import opened Trees

  // ------------------------------------------------------------- the record

  /** The fields a commit carries: tree id, optional parent id, date, author and message. */
  datatype CommitRecord = CommitRecord(
    treeSha: string, parentSha: Option<string>, dateTime: string, author: string, commitMessage: string)

  /** `if self.parent_sha:` -- a parent that is absent or the empty string counts as none. */
  predicate HasParent(c: CommitRecord) {
    c.parentSha.Some? && c.parentSha.value != ""
  }

  /** The record as load() gives it back: an empty parent reads as no parent. */
  function Canonical(c: CommitRecord): CommitRecord {
    if HasParent(c) then c else c.(parentSha := None)
  }

  /** One "Key:Value" line. */
  function Line(key: string, value: string): string {
    key + ":" + value
  }

  /** The lines of create_data(), in their fixed order. */
  function RecordLines(c: CommitRecord): (lines: seq<string>)
    ensures |lines| == if HasParent(c) then 5 else 4
  {
    [Line("Tree", c.treeSha)]
    + (if HasParent(c) then [Line("Parent", c.parentSha.value)] else [])
    + [Line("Date", c.dateTime), Line("Author", c.author), Line("Message", c.commitMessage)]
  }

  /** "\n".join(lines). */
  function JoinLines(lines: seq<string>): string {
    if lines == [] then ""
    else if |lines| == 1 then lines[0]
    else lines[0] + "\n" + JoinLines(lines[1..])
  }

  /** create_data(): the record's lines joined by newlines, with no trailing newline. */
  function CreateData(c: CommitRecord): (s: string)
    ensures HasParent(c) ==>
      s == Line("Tree", c.treeSha) + "\n" + Line("Parent", c.parentSha.value) + "\n" + Line("Date", c.dateTime)
           + "\n" + Line("Author", c.author) + "\n" + Line("Message", c.commitMessage)
    ensures !HasParent(c) ==>
      s == Line("Tree", c.treeSha) + "\n" + Line("Date", c.dateTime)
           + "\n" + Line("Author", c.author) + "\n" + Line("Message", c.commitMessage)
  {
    var tree, date := Line("Tree", c.treeSha), Line("Date", c.dateTime);
    var author, message := Line("Author", c.author), Line("Message", c.commitMessage);
    if HasParent(c) then
      var parent := Line("Parent", c.parentSha.value);
      JoinFiveLines(tree, parent, date, author, message);
      assert RecordLines(c) == [tree, parent, date, author, message];
      JoinLines(RecordLines(c))
    else
      JoinFourLines(tree, date, author, message);
      assert RecordLines(c) == [tree, date, author, message];
      JoinLines(RecordLines(c))
  }

  lemma JoinFourLines(a: string, b: string, c: string, d: string)
    ensures JoinLines([a, b, c, d]) == a + "\n" + b + "\n" + c + "\n" + d
  {
    JoinLinesCons(c, [d]);
    assert [c] + [d] == [c, d];
    JoinLinesCons(b, [c, d]);
    assert [b] + [c, d] == [b, c, d];
    JoinLinesCons(a, [b, c, d]);
    assert [a] + [b, c, d] == [a, b, c, d];
  }

  lemma JoinFiveLines(a: string, b: string, c: string, d: string, e: string)
    ensures JoinLines([a, b, c, d, e]) == a + "\n" + b + "\n" + c + "\n" + d + "\n" + e
  {
    JoinFourLines(b, c, d, e);
    JoinLinesCons(a, [b, c, d, e]);
    assert [a] + [b, c, d, e] == [a, b, c, d, e];
  }

  lemma JoinLinesCons(line: string, rest: seq<string>)
    requires rest != []
    ensures JoinLines([line] + rest) == line + "\n" + JoinLines(rest)
  {
    assert ([line] + rest)[1..] == rest;
  }

  /** The values the round trip needs: plain ASCII text on a single line. */
  predicate OneLine(s: string) {
    IsAscii(s) && NoLineBreak(s)
  }

  predicate Storable(c: CommitRecord) {
    && OneLine(c.treeSha)
    && (c.parentSha.Some? ==> OneLine(c.parentSha.value))
    && OneLine(c.dateTime) && OneLine(c.author) && OneLine(c.commitMessage)
  }

  /** Splitting the joined text at its line breaks gives the lines back. */
  lemma {:induction false} SplitJoinedLines(lines: seq<string>)
    requires forall k :: 0 <= k < |lines| ==> lines[k] != [] && NoLineBreak(lines[k])
    ensures SplitLines(JoinLines(lines)) == lines
  {
    if |lines| == 1 {
      SplitLinesSingle(lines[0]);
    } else if |lines| > 1 {
      SplitLinesCons(lines[0], JoinLines(lines[1..]));
      SplitJoinedLines(lines[1..]);
      assert lines == [lines[0]] + lines[1..];
    }
  }

  lemma LineOneLine(key: string, value: string)
    requires NoLineBreak(key) && NoLineBreak(value)
    ensures NoLineBreak(Line(key, value)) && Line(key, value) != []
  {
    var l := Line(key, value);
    forall i | 0 <= i < |l| ensures !IsLineBreak(l[i]) {
      if i < |key| { assert l[i] == key[i]; }
      else if i > |key| { assert l[i] == value[i - |key| - 1]; }
    }
  }

  /**
   * create_data() emits Tree, Parent, Date, Author, Message lines in that order,
   * the Parent line only when there is a parent; splitlines() recovers them.
   */
  lemma CreateDataLines(c: CommitRecord)
    requires Storable(c)
    ensures SplitLines(CreateData(c)) == RecordLines(c)
  {
    var lines := RecordLines(c);
    LineOneLine("Tree", c.treeSha);
    if HasParent(c) { LineOneLine("Parent", c.parentSha.value); }
    LineOneLine("Date", c.dateTime);
    LineOneLine("Author", c.author);
    LineOneLine("Message", c.commitMessage);
    SplitJoinedLines(lines);
  }

  lemma AsciiLine(key: string, value: string)
    requires IsAscii(key) && IsAscii(value)
    ensures IsAscii(Line(key, value))
  {
    var l := Line(key, value);
    forall i | 0 <= i < |l| ensures IsAsciiChar(l[i]) {
      if i < |key| { assert l[i] == key[i]; }
      else if i > |key| { assert l[i] == value[i - |key| - 1]; }
    }
  }

  lemma {:induction false} AsciiJoinedLines(lines: seq<string>)
    ensures IsAscii(JoinLines(lines)) <==> forall k :: 0 <= k < |lines| ==> IsAscii(lines[k])
  {
    if |lines| > 1 {
      AsciiJoinedLines(lines[1..]);
      var s := JoinLines(lines);
      var head, tail := lines[0], JoinLines(lines[1..]);
      assert s == head + "\n" + tail;
      if IsAscii(s) {
        assert IsAscii(head) by {
          forall i | 0 <= i < |head| ensures IsAsciiChar(head[i]) { assert s[i] == head[i]; }
        }
        assert IsAscii(tail) by {
          forall i | 0 <= i < |tail| ensures IsAsciiChar(tail[i]) { assert s[|head| + 1 + i] == tail[i]; }
        }
        forall k | 0 <= k < |lines| ensures IsAscii(lines[k]) {
          if k > 0 { assert lines[k] == lines[1..][k - 1]; }
        }
      } else {
        assert !IsAscii(head) || !IsAscii(tail) by {
          var i :| 0 <= i < |s| && !IsAsciiChar(s[i]);
          if i < |head| { assert s[i] == head[i]; }
          else if i > |head| { assert s[i] == tail[i - |head| - 1]; }
        }
        if !IsAscii(head) {
          assert !IsAscii(lines[0]);
        } else {
          var k :| 0 <= k < |lines[1..]| && !IsAscii(lines[1..][k]);
          assert !IsAscii(lines[k + 1]);
        }
      }
    }
  }

  lemma AsciiKeyedValue(key: string, value: string)
    requires IsAscii(key)
    ensures IsAscii(Line(key, value)) <==> IsAscii(value)
  {
    var l := Line(key, value);
    if IsAscii(value) {
      AsciiLine(key, value);
    } else {
      var i :| 0 <= i < |value| && !IsAsciiChar(value[i]);
      assert l[|key| + 1 + i] == value[i];
    }
  }

  /** data.encode("ascii") succeeds exactly when every value written into the record is ASCII. */
  lemma CreateDataAscii(c: CommitRecord)
    ensures IsAscii(CreateData(c)) <==>
      && IsAscii(c.treeSha)
      && (HasParent(c) ==> IsAscii(c.parentSha.value))
      && IsAscii(c.dateTime) && IsAscii(c.author) && IsAscii(c.commitMessage)
  {
    var lines := RecordLines(c);
    AsciiJoinedLines(lines);
    AsciiKeyedValue("Tree", c.treeSha);
    if HasParent(c) { AsciiKeyedValue("Parent", c.parentSha.value); }
    AsciiKeyedValue("Date", c.dateTime);
    AsciiKeyedValue("Author", c.author);
    AsciiKeyedValue("Message", c.commitMessage);
    var n := |lines|;
    assert lines[0] == Line("Tree", c.treeSha);
    assert lines[n - 3] == Line("Date", c.dateTime);
    assert lines[n - 2] == Line("Author", c.author);
    assert lines[n - 1] == Line("Message", c.commitMessage);
    if HasParent(c) { assert lines[1] == Line("Parent", c.parentSha.value); }
  }

  // ------------------------------------------------------------- entries

  /** line.split(":", 1) when ":" is in the line: the key before the first colon and the rest. */
  function SplitEntry(line: string): (r: Option<(string, string)>)
    ensures r.None? <==> ':' !in line
    ensures r.Some? ==> line == r.value.0 + ":" + r.value.1 && ':' !in r.value.0
  {
    var i := ColonIndex(line);
    if i == |line| then None
    else
      assert line == line[..i] + ":" + line[i + 1..];
      Some((line[..i], line[i + 1..]))
  }

  /** The line sets key (after lower-casing). */
  predicate SetsKey(line: string, key: string) {
    SplitEntry(line).Some? && LowerAscii(SplitEntry(line).value.0) == key
  }

  /** Some line sets key to value. */
  predicate SetByLine(lines: seq<string>, key: string, value: string) {
    exists j :: 0 <= j < |lines| && SetsKey(lines[j], key) && SplitEntry(lines[j]).value.1 == value
  }

  /** The entries dict load() builds: each line with a colon sets its lower-cased key; later lines win. */
  function Entries(lines: seq<string>): map<string, string> {
    if lines == [] then map[]
    else
      var m := Entries(lines[..|lines| - 1]);
      match SplitEntry(lines[|lines| - 1])
      case None => m
      case Some((key, value)) => m[LowerAscii(key) := value]
  }

  /** Every value in the dict was set by some line for its key. */
  lemma {:induction false} EntriesValues(lines: seq<string>, key: string)
    requires key in Entries(lines)
    ensures SetByLine(lines, key, Entries(lines)[key])
  {
    var init := lines[..|lines| - 1];
    var last := |lines| - 1;
    if SetsKey(lines[last], key) {
      assert SplitEntry(lines[last]).value.1 == Entries(lines)[key];
    } else {
      EntriesValues(init, key);
      var j :| 0 <= j < |init| && SetsKey(init[j], key) && SplitEntry(init[j]).value.1 == Entries(init)[key];
      assert lines[j] == init[j];
    }
  }

  /** A key is in the dict exactly when some line sets it. */
  lemma {:induction false} EntriesKeys(lines: seq<string>, key: string)
    ensures key in Entries(lines) <==> exists j :: 0 <= j < |lines| && SetsKey(lines[j], key)
  {
    if lines != [] {
      var init := lines[..|lines| - 1];
      EntriesKeys(init, key);
      ExistsSnoc(lines, init, line => SetsKey(line, key));
    }
  }

  /** Some line satisfies p exactly when one before the last does or the last one does. */
  lemma ExistsSnoc(lines: seq<string>, init: seq<string>, p: string -> bool)
    requires lines != [] && init == lines[..|lines| - 1]
    ensures (exists j :: 0 <= j < |lines| && p(lines[j])) <==>
      (exists j :: 0 <= j < |init| && p(init[j])) || p(lines[|lines| - 1])
  {
    if exists j :: 0 <= j < |lines| && p(lines[j]) {
      var j :| 0 <= j < |lines| && p(lines[j]);
      if j < |init| { assert init[j] == lines[j]; }
    }
    if exists j :: 0 <= j < |init| && p(init[j]) {
      var j :| 0 <= j < |init| && p(init[j]);
      assert lines[j] == init[j];
    }
  }

  /** The value of a key is the one on the last line that sets it. */
  lemma {:induction false} EntriesLastWins(lines: seq<string>, k: nat, key: string)
    requires k < |lines| && SetsKey(lines[k], key)
    requires forall j :: k < j < |lines| ==> !SetsKey(lines[j], key)
    ensures key in Entries(lines) && Entries(lines)[key] == SplitEntry(lines[k]).value.1
  {
    var init := lines[..|lines| - 1];
    if k < |lines| - 1 {
      forall j | k < j < |init| ensures !SetsKey(init[j], key) {
        assert init[j] == lines[j];
      }
      assert init[k] == lines[k];
      EntriesLastWins(init, k, key);
    }
  }

  /**
   * Only the first colon splits: a line "Key:value" sets key.lower() to value,
   * whatever colons value holds.
   */
  lemma EntryOfLine(key: string, value: string)
    requires ':' !in key
    ensures SplitEntry(Line(key, value)) == Some((key, value))
  {
    ColonIndexOfKey(key, value);
    var l := Line(key, value);
    assert l[..|key|] == key;
    assert l[|key| + 1..] == value;
  }

  /** The loop of load() over the lines, filling the entries dict. */
  method CollectEntries(lines: seq<string>) returns (entries: map<string, string>)
    ensures entries == Entries(lines)
  {
    entries := map[];
    var i := 0;
    while i < |lines|
      invariant i <= |lines|
      invariant entries == Entries(lines[..i])
    {
      assert lines[..i + 1][..i] == lines[..i];
      var line := lines[i];
      var split := SplitEntry(line);
      if split.Some? {
        entries := entries[LowerAscii(split.value.0) := split.value.1];
      }
      i := i + 1;
    }
    assert lines[..i] == lines;
  }

  /** The fields load() reads out of the entries dict; all but parent are required. */
  function RecordOf(entries: map<string, string>): (r: Result<CommitRecord>)
    ensures r.Success? <==> "tree" in entries && "date" in entries && "author" in entries && "message" in entries
    ensures r.Success? ==> r.value.parentSha == (if "parent" in entries then Some(entries["parent"]) else None)
    ensures r.Success? ==> r.value.treeSha == entries["tree"] && r.value.dateTime == entries["date"]
    ensures r.Success? ==> r.value.author == entries["author"] && r.value.commitMessage == entries["message"]
    ensures "tree" !in entries ==> r == Failure(MissingField("tree"))
    ensures "tree" in entries && "date" !in entries ==> r == Failure(MissingField("date"))
    ensures "tree" in entries && "date" in entries && "author" !in entries ==> r == Failure(MissingField("author"))
    ensures "tree" in entries && "date" in entries && "author" in entries && "message" !in entries ==>
      r == Failure(MissingField("message"))
  {
    if "tree" !in entries then Failure(MissingField("tree"))
    else
      var parent := if "parent" in entries then Some(entries["parent"]) else None;
      if "date" !in entries then Failure(MissingField("date"))
      else if "author" !in entries then Failure(MissingField("author"))
      else if "message" !in entries then Failure(MissingField("message"))
      else Success(CommitRecord(entries["tree"], parent, entries["date"], entries["author"], entries["message"]))
  }

  lemma LowerKeys()
    ensures LowerAscii("Tree") == "tree" && LowerAscii("Parent") == "parent"
    ensures LowerAscii("Date") == "date" && LowerAscii("Author") == "author"
    ensures LowerAscii("Message") == "message"
  {
  }

  /** Appending a "Key:value" line sets key.lower() to value. */
  lemma EntriesSnoc(lines: seq<string>, key: string, value: string)
    requires ':' !in key
    ensures Entries(lines + [Line(key, value)]) == Entries(lines)[LowerAscii(key) := value]
  {
    EntryOfLine(key, value);
    assert (lines + [Line(key, value)])[..|lines|] == lines;
  }

  /** The leading lines of the record: the tree, then the parent when there is one. */
  function HeadLines(c: CommitRecord): seq<string> {
    [Line("Tree", c.treeSha)] + (if HasParent(c) then [Line("Parent", c.parentSha.value)] else [])
  }

  lemma EntriesOfHeadLines(c: CommitRecord)
    ensures Entries(HeadLines(c)) ==
      if HasParent(c) then map["tree" := c.treeSha, "parent" := c.parentSha.value] else map["tree" := c.treeSha]
  {
    LowerKeys();
    var first := [Line("Tree", c.treeSha)];
    EntriesSnoc([], "Tree", c.treeSha);
    assert [] + [Line("Tree", c.treeSha)] == first;
    if HasParent(c) {
      EntriesSnoc(first, "Parent", c.parentSha.value);
    } else {
      assert HeadLines(c) == first;
    }
  }

  lemma EntriesOfTailLines(prefix: seq<string>, c: CommitRecord)
    ensures Entries(prefix + [Line("Date", c.dateTime), Line("Author", c.author), Line("Message", c.commitMessage)])
         == Entries(prefix)["date" := c.dateTime]["author" := c.author]["message" := c.commitMessage]
  {
    LowerKeys();
    var withDate := prefix + [Line("Date", c.dateTime)];
    var withAuthor := withDate + [Line("Author", c.author)];
    EntriesSnoc(prefix, "Date", c.dateTime);
    EntriesSnoc(withDate, "Author", c.author);
    EntriesSnoc(withAuthor, "Message", c.commitMessage);
    assert withAuthor + [Line("Message", c.commitMessage)]
        == prefix + [Line("Date", c.dateTime), Line("Author", c.author), Line("Message", c.commitMessage)];
  }

  /** The record's lines parse back into the record, up to an empty parent. */
  lemma RecordOfLines(c: CommitRecord)
    ensures RecordOf(Entries(RecordLines(c))) == Success(Canonical(c))
  {
    EntriesOfHeadLines(c);
    EntriesOfTailLines(HeadLines(c), c);
    assert RecordLines(c)
        == HeadLines(c) + [Line("Date", c.dateTime), Line("Author", c.author), Line("Message", c.commitMessage)];
  }

  // ------------------------------------------------------------- the object

  /** make_header("commit", body), with the tag's ASCII check discharged once. */
  function CommitHeader(body: seq<byte>): seq<byte> {
    MakeHeader("commit", body)
  }

  /** The bytes stored for a commit with this body. */
  function CommitFrame(body: seq<byte>): seq<byte> {
    CommitHeader(body) + body
  }

  /**
   * The header and length checks of Commit.load, then the ASCII decode of the
   * body: the tag must be "commit" and the body exactly as long as declared.
   */
  function CommitText(content: seq<byte>): (r: Result<string>)
    ensures FindNul(content).None? ==> r == Failure(MalformedHeader)
    ensures SplitHeader(content).Failure? ==> r == Failure(SplitHeader(content).error)
    ensures r.Success? ==>
      && SplitHeader(content).Success?
      && SplitHeader(content).value.kind == "commit"
      && ParseInt(SplitHeader(content).value.length) == Some(|content| - SplitHeader(content).value.nul - 1)
      && DecodeAscii(content[SplitHeader(content).value.nul + 1..]) == Success(r.value)
  {
    var h :- SplitHeader(content);
    if h.kind != "commit" then Failure(WrongKind(h.kind))
    else
      var body := content[h.nul + 1..];
      match ParseInt(h.length)
      case None => Failure(MalformedHeader)
      case Some(n) =>
        if n != |body| then Failure(LengthMismatch)
        else DecodeAscii(body)
  }

  /** Commit.load's parse of a stored object into a record. */
  function DecodeCommit(content: seq<byte>): (r: Result<CommitRecord>)
    ensures CommitText(content).Failure? ==> r == Failure(CommitText(content).error)
    ensures CommitText(content).Success? ==>
      var e := Entries(SplitLines(CommitText(content).value));
      && (r.Success? <==> "tree" in e && "date" in e && "author" in e && "message" in e)
      && (r.Success? ==> r.value == CommitRecord(e["tree"], if "parent" in e then Some(e["parent"]) else None,
                                                 e["date"], e["author"], e["message"]))
  {
    var text :- CommitText(content);
    RecordOf(Entries(SplitLines(text)))
  }

  /** Commit.load(object_id) as a value: read the stored object, then decode it. */
  function LoadCommit(m: Objects, id: string): (r: Result<CommitRecord>)
    ensures SplitId(id) !in m ==> r == Failure(FileNotFound)
    ensures SplitId(id) in m && m[SplitId(id)] == [] ==> r == Failure(EmptyFile)
    ensures SplitId(id) in m && m[SplitId(id)] != [] ==> r == DecodeCommit(m[SplitId(id)])
  {
    var content :- ReadObject(m, id);
    DecodeCommit(content)
  }

  /** The body of a commit frame decodes back to the text it was encoded from. */
  lemma CommitTextOfFrame(text: string)
    requires IsAscii(text)
    ensures CommitText(CommitFrame(AsciiBytes(text))) == Success(text)
  {
    var body := AsciiBytes(text);
    var h := MakeHeader("commit", body);
    assert IsTag("commit");
    SplitHeaderOfFrame("commit", body, body);
    ParseDecimal(|body|);
    assert (h + body)[|h|..] == body;
    DecodeEncodedAscii(text);
  }

  /** Round trip: a stored record loads back as itself (an empty parent as none). */
  lemma DecodeCommitFrame(c: CommitRecord)
    requires Storable(c)
    ensures IsAscii(CreateData(c))
    ensures DecodeCommit(CommitFrame(AsciiBytes(CreateData(c)))) == Success(Canonical(c))
  {
    CreateDataAscii(c);
    CommitTextOfFrame(CreateData(c));
    CreateDataLines(c);
    RecordOfLines(c);
  }

  /** Any bytes after the declared body make load() fail, unlike a blob's load. */
  lemma DecodeCommitTrailing(body: seq<byte>, extra: seq<byte>)
    requires extra != []
    ensures DecodeCommit(CommitFrame(body) + extra) == Failure(LengthMismatch)
  {
    var h := MakeHeader("commit", body);
    assert IsTag("commit");
    assert CommitFrame(body) + extra == h + (body + extra);
    SplitHeaderOfFrame("commit", body, body + extra);
    ParseDecimal(|body|);
    assert (h + (body + extra))[|h|..] == body + extra;
  }

  /** A frame of another kind is refused with the kind it carries. */
  lemma DecodeCommitWrongKind(tag: string, body: seq<byte>)
    requires IsTag(tag) && tag != "commit"
    ensures DecodeCommit(MakeHeader(tag, body) + body) == Failure(WrongKind(tag))
  {
    SplitHeaderOfFrame(tag, body, body);
  }

  // ------------------------------------------------------------- HEAD and refs

  /** HEAD's content as `repository.init` writes it. */
  const InitialHead: string := "ref: refs/heads/master"

  /** Where HEAD points and what the ref there holds, if it exists. */
  datatype ParentRef = ParentRef(location: string, parentSha: Option<string>)

  /** The ref location named by HEAD: the text after its first whitespace run, once stripped. */
  function HeadLocation(head: Option<string>): (r: Result<string>)
    ensures head.None? ==> r == Failure(FileNotFound)
    ensures head.Some? && r.Failure? ==> r == Failure(MalformedHead)
    ensures head.Some? ==> (r.Failure? <==> |Fields(head.value)| < 2)
    ensures r.Success? ==> r.value != [] && !IsSpace(r.value[0])
  {
    match head
    case None => Failure(FileNotFound)
    case Some(text) =>
      FieldsStrip(text);
      SplitOnceCount(Strip(text));
      var parts := SplitOnce(Strip(text));
      if |parts| < 2 then Failure(MalformedHead) else Success(parts[1])
  }

  /** get_parent_sha as a value: follow HEAD to the ref, whose stripped content is the parent. */
  function ParentOf(head: Option<string>, refs: map<string, string>): (r: Result<ParentRef>)
    ensures r.Success? <==> HeadLocation(head).Success?
    ensures r.Success? ==> r.value.location == HeadLocation(head).value
    ensures r.Success? ==> (r.value.parentSha.None? <==> r.value.location !in refs)
    ensures r.Success? && r.value.location in refs ==> r.value.parentSha == Some(Strip(refs[r.value.location]))
  {
    var location :- HeadLocation(head);
    Success(ParentRef(location, if location in refs then Some(Strip(refs[location])) else None))
  }

  /**
   * HEAD holding a word, a whitespace run and a location, with any whitespace
   * around the whole, names that location, spaces inside it included.
   */
  lemma HeadNamesLocation(a: string, word: string, gap: string, location: string, b: string)
    requires Blank(a) && Blank(b) && gap != [] && Blank(gap) && word != [] && NoSpace(word)
    requires location != [] && !IsSpace(location[0]) && !IsSpace(location[|location| - 1])
    ensures HeadLocation(Some(a + word + gap + location + b)) == Success(location)
  {
    var v := word + gap + location;
    assert a + word + gap + location + b == a + v + b;
    assert v[0] == word[0] && v[|v| - 1] == location[|location| - 1];
    StripPadded(a, v, b);
    SplitOnceOfWordAndRest(word, gap, location);
  }

  /** HEAD of the form "<word> <location>", as init writes it, names location. */
  lemma HeadOfTwoWords(word: string, location: string)
    requires word != [] && NoSpace(word) && location != [] && NoSpace(location)
    ensures HeadLocation(Some(word + " " + location)) == Success(location)
  {
    var gap := " ";
    assert Blank(gap);
    assert word + " " + location == [] + word + gap + location + [];
    HeadNamesLocation([], word, gap, location, []);
  }

  /** Text made of printable ASCII characters other than the space has no whitespace. */
  lemma PrintableNoSpace(s: string)
    requires forall i :: 0 <= i < |s| ==> '!' <= s[i] <= '~'
    ensures NoSpace(s)
  {
  }

  /** A fresh repository's HEAD points at refs/heads/master. */
  lemma InitialHeadLocation()
    ensures HeadLocation(Some(InitialHead)) == Success("refs/heads/master")
  {
    var word, location := "ref:", "refs/heads/master";
    assert InitialHead == word + " " + location;
    PrintableNoSpace(word);
    PrintableNoSpace(location);
    HeadOfTwoWords(word, location);
  }

  /**
   * Parent chain: once the ref HEAD points at holds a new commit id, the next
   * lookup returns that id as the parent.
   */
  lemma ParentAfterAdvance(head: Option<string>, refs: map<string, string>, id: string)
    requires HeadLocation(head).Success? && IsHexDigest(id)
    ensures ParentOf(head, refs[HeadLocation(head).value := id])
         == Success(ParentRef(HeadLocation(head).value, Some(id)))
  {
    HexDigestIsAsciiWord(id);
    StripNoSpace(id);
  }

  /**
   * The parent is the ref's content without the whitespace around it, such as
   * the newline an editor leaves at the end of the file.
   */
  lemma ParentOfPaddedRef(head: Option<string>, refs: map<string, string>, a: string, id: string, b: string)
    requires HeadLocation(head).Success? && IsHexDigest(id) && Blank(a) && Blank(b)
    requires HeadLocation(head).value in refs && refs[HeadLocation(head).value] == a + id + b
    ensures ParentOf(head, refs) == Success(ParentRef(HeadLocation(head).value, Some(id)))
  {
    HexDigestIsAsciiWord(id);
    assert id[0] in id && id[|id| - 1] in id;
    StripPadded(a, id, b);
  }

  /**
   * The pointers under .minigit: HEAD's text (absent if the file is missing),
   * which nothing in the object model rewrites, and the ref files, which
   * store() advances.
   */
  class RefArea {
    const head: Option<string>
    var refs: map<string, string>

    constructor (head: Option<string>, refs: map<string, string>)
      ensures this.head == head && this.refs == refs
    {
      this.head := head;
      this.refs := refs;
    }

    /** A freshly initialised repository: HEAD points at master, which does not exist yet. */
    constructor Init()
      ensures head == Some(InitialHead) && refs == map[]
    {
      head := Some(InitialHead);
      refs := map[];
    }
  }

  // ------------------------------------------------------------- store

  /** The record store() writes: the tree id, the ref's tip as parent, and the commit's own fields. */
  function StoredRecord(treeSha: string, p: ParentRef, dateTime: string, author: string, message: string): CommitRecord {
    CommitRecord(treeSha, p.parentSha, dateTime, author, message)
  }

  /**
   * The part of Commit.store() that follows the tree: find the parent through
   * HEAD, then encode, frame, name and write the commit.
   */
  function CommitOnTree(hash: Digest, treeSha: string, dateTime: string, author: string, message: string,
                        head: Option<string>, refs: map<string, string>): (o: Outcome<string>)
    ensures o.result.Success? <==>
      ParentOf(head, refs).Success?
      && IsAscii(CreateData(StoredRecord(treeSha, ParentOf(head, refs).value, dateTime, author, message)))
    ensures o.result.Failure? ==> o.writes == []
    ensures o.result.Success? ==> IsHexDigest(o.result.value) && |o.writes| == 1 && o.writes[0].id == o.result.value
    ensures o.result.Success? ==>
      var body := AsciiBytes(CreateData(StoredRecord(treeSha, ParentOf(head, refs).value, dateTime, author, message)));
      o.result.value == CreateObjId(hash, CommitHeader(body), body) && o.writes == [Write(o.result.value, CommitFrame(body))]
  {
    match ParentOf(head, refs)
    case Failure(e) => Outcome(Failure(e), [])
    case Success(p) =>
      match EncodeAscii(CreateData(StoredRecord(treeSha, p, dateTime, author, message)))
      case Failure(e) => Outcome(Failure(e), [])
      case Success(body) =>
        var id := CreateObjId(hash, CommitHeader(body), body);
        Outcome(Success(id), [Write(id, CommitFrame(body))])
  }

  /**
   * What Commit.store() does: validate the directory, store its tree, then
   * commit on it. The tree's writes remain when a later step fails.
   */
  function StoreCommit(hash: Digest, n: Option<Node>, dateTime: string, author: string, message: string,
                       head: Option<string>, refs: map<string, string>): (o: Outcome<string>)
    ensures ValidateDirectory(n).Failure? ==> o == Outcome(Failure(ValidateDirectory(n).error), [])
    ensures ValidateDirectory(n).Success? && StoreTree(hash, n).result.Failure? ==>
      o == Outcome(Failure(StoreTree(hash, n).result.error), StoreTree(hash, n).writes)
    ensures ValidateDirectory(n).Success? && StoreTree(hash, n).result.Success? ==>
      var c := CommitOnTree(hash, StoreTree(hash, n).result.value, dateTime, author, message, head, refs);
      o == Outcome(c.result, StoreTree(hash, n).writes + c.writes)
    ensures o.result.Success? ==> IsHexDigest(o.result.value)
  {
    match ValidateDirectory(n)
    case Failure(e) => Outcome(Failure(e), [])
    case Success(_) =>
      var t := StoreTree(hash, n);
      match t.result
      case Failure(e) => Outcome(Failure(e), t.writes)
      case Success(treeSha) =>
        var c := CommitOnTree(hash, treeSha, dateTime, author, message, head, refs);
        Outcome(c.result, t.writes + c.writes)
  }

  /**
   * store() fails on non-ASCII text exactly when the tree and HEAD steps
   * succeeded and some value written into the record is not ASCII.
   */
  lemma StoreCommitAscii(hash: Digest, n: Option<Node>, dateTime: string, author: string, message: string,
                         head: Option<string>, refs: map<string, string>)
    requires ValidateDirectory(n).Success? && StoreTree(hash, n).result.Success? && ParentOf(head, refs).Success?
    ensures var c := StoredRecord(StoreTree(hash, n).result.value, ParentOf(head, refs).value, dateTime, author, message);
      StoreCommit(hash, n, dateTime, author, message, head, refs).result.Success? <==>
        && (HasParent(c) ==> IsAscii(c.parentSha.value))
        && IsAscii(dateTime) && IsAscii(author) && IsAscii(message)
  {
    var c := StoredRecord(StoreTree(hash, n).result.value, ParentOf(head, refs).value, dateTime, author, message);
    HexDigestIsAsciiWord(c.treeSha);
    CreateDataAscii(c);
  }

  /**
   * Round trip through the object area: after the commit's frame is written,
   * loading its id gives the record back, provided nothing else sits at its path.
   */
  lemma StoreThenLoadCommit(hash: Digest, m: Objects, c: CommitRecord)
    requires Storable(c)
    ensures IsAscii(CreateData(c))
    ensures var body := AsciiBytes(CreateData(c));
      var id := CreateObjId(hash, CommitHeader(body), body);
      (SplitId(id) in m ==> m[SplitId(id)] == CommitFrame(body)) ==>
        LoadCommit(Insert(m, Write(id, CommitFrame(body))), id) == Success(Canonical(c))
  {
    DecodeCommitFrame(c);
    var body := AsciiBytes(CreateData(c));
    var id := CreateObjId(hash, CommitHeader(body), body);
    if SplitId(id) in m ==> m[SplitId(id)] == CommitFrame(body) {
      var m' := Insert(m, Write(id, CommitFrame(body)));
      assert m'[SplitId(id)] == CommitFrame(body);
    }
  }

  /**
   * Round trip through store itself: once Commit.store() has succeeded, loading
   * the id it returns from the area it wrote gives the record it built, provided
   * the record's values are one-line ASCII and the commit's path was free or
   * already held the same frame.
   */
  lemma StoreCommitThenLoad(hash: Digest, m: Objects, n: Option<Node>, dateTime: string, author: string,
                            message: string, head: Option<string>, refs: map<string, string>)
    requires StoreCommit(hash, n, dateTime, author, message, head, refs).result.Success?
    requires ValidateDirectory(n).Success? && StoreTree(hash, n).result.Success? && ParentOf(head, refs).Success?
    requires Storable(StoredRecord(StoreTree(hash, n).result.value, ParentOf(head, refs).value, dateTime, author, message))
    requires var id := StoreCommit(hash, n, dateTime, author, message, head, refs).result.value;
      var t := InsertAll(m, StoreTree(hash, n).writes);
      SplitId(id) in t ==> t[SplitId(id)] == StoreCommit(hash, n, dateTime, author, message, head, refs).writes[|StoreCommit(hash, n, dateTime, author, message, head, refs).writes| - 1].bytes
    ensures var o := StoreCommit(hash, n, dateTime, author, message, head, refs);
      LoadCommit(InsertAll(m, o.writes), o.result.value)
        == Success(Canonical(StoredRecord(StoreTree(hash, n).result.value, ParentOf(head, refs).value,
                                          dateTime, author, message)))
  {
    var o := StoreCommit(hash, n, dateTime, author, message, head, refs);
    var tw := StoreTree(hash, n).writes;
    var c := CommitOnTree(hash, StoreTree(hash, n).result.value, dateTime, author, message, head, refs);
    var r := StoredRecord(StoreTree(hash, n).result.value, ParentOf(head, refs).value, dateTime, author, message);
    assert o.writes == tw + c.writes && o.writes[|o.writes| - 1] == c.writes[0];
    InsertAllAppend(m, tw, c.writes);
    InsertAllSingle(InsertAll(m, tw), c.writes[0]);
    StoreThenLoadCommit(hash, InsertAll(m, tw), r);
  }

  class Commit {
    const dirPath: PathArg
    const author: string
    const dateTime: string
    const commitMessage: string
    var treeSha: Option<string>
    var parentSha: Option<string>
    var parentLocation: Option<string>
    var data: Option<string>
    var body: Option<seq<byte>>
    var header: Option<seq<byte>>
    var objectId: Option<string>

    constructor (dirPath: PathArg, author: string, dateTime: string, commitMessage: string)
      ensures this.dirPath == dirPath && this.author == author
      ensures this.dateTime == dateTime && this.commitMessage == commitMessage
      ensures treeSha == None && parentSha == None && parentLocation == None
      ensures data == None && body == None && header == None && objectId == None
    {
      this.dirPath, this.author, this.dateTime, this.commitMessage := dirPath, author, dateTime, commitMessage;
      treeSha, parentSha, parentLocation := None, None, None;
      data, body, header, objectId := None, None, None, None;
    }

    /**
     * Commit(dir_path, author, commit_message): the clock reading and the typed
     * message stand for datetime.now() and input(); a missing or empty message
     * takes the typed one, and a missing or empty directory path is refused.
     */
    static method New(dirPath: PathArg, author: string, now: string, commitMessage: Option<string>, typed: string)
      returns (r: Result<Commit>)
      ensures r.Success? <==> dirPath.At?
      ensures r.Failure? ==> r.error == MissingPath
      ensures r.Success? ==> fresh(r.value) && r.value.dirPath == dirPath
      ensures r.Success? ==> r.value.author == author && r.value.dateTime == now
      ensures r.Success? ==>
        r.value.commitMessage == (if commitMessage.Some? && commitMessage.value != "" then commitMessage.value else typed)
      ensures r.Success? ==> r.value.objectId == None && r.value.treeSha == None
    {
      var message := if commitMessage.Some? && commitMessage.value != "" then commitMessage.value else typed;
      if !dirPath.At? {
        return Failure(MissingPath);
      }
      var c := new Commit(dirPath, author, now, message);
      return Success(c);
    }

    /** get_parent_sha(): follow HEAD, remember the ref location, read the tip if the ref exists. */
    method GetParentSha(refArea: RefArea) returns (r: Result<Option<string>>)
      modifies this`parentLocation
      ensures r.Success? <==> ParentOf(refArea.head, refArea.refs).Success?
      ensures r.Failure? ==> r.error == ParentOf(refArea.head, refArea.refs).error
      ensures r.Failure? ==> parentLocation == old(parentLocation)
      ensures r.Success? ==> r.value == ParentOf(refArea.head, refArea.refs).value.parentSha
      ensures r.Success? ==> parentLocation == Some(ParentOf(refArea.head, refArea.refs).value.location)
    {
      var location := HeadLocation(refArea.head);
      if location.Failure? {
        return Failure(location.error);
      }
      parentLocation := Some(location.value);
      if location.value in refArea.refs {
        r := Success(Some(Strip(refArea.refs[location.value])));
      } else {
        r := Success(None);
      }
    }

    /**
     * store(): validate the directory, store its tree, find the parent, build
     * and encode the record, frame and write it, point the ref at it, and clear
     * the parent.
     */
    method Store(fs: Node, area: ObjectArea, refArea: RefArea, hash: Digest) returns (r: Result<string>)
      modifies this, area, refArea
      ensures r == StoreCommit(hash, ResolveArg(fs, dirPath), dateTime, author, commitMessage,
                               refArea.head, old(refArea.refs)).result
      ensures area.objects == InsertAll(old(area.objects), StoreCommit(hash, ResolveArg(fs, dirPath),
                               dateTime, author, commitMessage, refArea.head, old(refArea.refs)).writes)
      ensures r.Failure? ==> refArea.refs == old(refArea.refs)
      ensures r.Success? ==> refArea.refs == old(refArea.refs)[HeadLocation(refArea.head).value := r.value]
      ensures r.Failure? ==> body == old(body) && header == old(header) && objectId == old(objectId)
      ensures StoreTree(hash, ResolveArg(fs, dirPath)).result.Failure? ==>
        treeSha == old(treeSha) && parentLocation == old(parentLocation)
      ensures StoreTree(hash, ResolveArg(fs, dirPath)).result.Failure? ==>
        parentSha == old(parentSha) && data == old(data)
      ensures StoreTree(hash, ResolveArg(fs, dirPath)).result.Success? ==>
        treeSha == Some(StoreTree(hash, ResolveArg(fs, dirPath)).result.value)
      ensures (StoreTree(hash, ResolveArg(fs, dirPath)).result.Success?
               && ParentOf(refArea.head, old(refArea.refs)).Failure?) ==>
        parentLocation == old(parentLocation) && parentSha == old(parentSha) && data == old(data)
      ensures (StoreTree(hash, ResolveArg(fs, dirPath)).result.Success?
               && ParentOf(refArea.head, old(refArea.refs)).Success?) ==>
        && parentLocation == Some(ParentOf(refArea.head, old(refArea.refs)).value.location)
        && data == Some(CreateData(StoredRecord(treeSha.value,
                          ParentOf(refArea.head, old(refArea.refs)).value, dateTime, author, commitMessage)))
      ensures (r.Failure? && StoreTree(hash, ResolveArg(fs, dirPath)).result.Success?
               && ParentOf(refArea.head, old(refArea.refs)).Success?) ==>
        r.error == NotAscii && parentSha == ParentOf(refArea.head, old(refArea.refs)).value.parentSha
      ensures r.Success? ==> parentSha == None && parentLocation == Some(HeadLocation(refArea.head).value)
      ensures r.Success? ==> IsAscii(data.value) && body == Some(AsciiBytes(data.value))
      ensures r.Success? ==> header == Some(CommitHeader(body.value)) && objectId == Some(r.value)
    {
      var n := ResolveArg(fs, dirPath);
      var checked := ValidateDirectory(n);
      if checked.Failure? {
        return Failure(checked.error);
      }
      var t := SnapshotTree(fs, area, hash);
      if t.Failure? {
        return Failure(t.error);
      }
      treeSha := Some(t.value);
      ghost var treeWrites := StoreTree(hash, n).writes;
      ghost var c := CommitOnTree(hash, t.value, dateTime, author, commitMessage, refArea.head, refArea.refs);
      ghost var before := area.objects;
      r := Advance(area, refArea, hash, t.value);
      InsertAllAppend(old(area.objects), treeWrites, c.writes);
      if r.Success? {
        InsertAllSingle(before, c.writes[0]);
        assert c.writes == [c.writes[0]];
      }
    }

    /** What store() does once the tree is stored: get_parent_sha, then the record and the ref. */
    method Advance(area: ObjectArea, refArea: RefArea, hash: Digest, tree: string) returns (r: Result<string>)
      requires treeSha == Some(tree)
      modifies this`parentLocation, this`data, this`body, this`header, this`objectId, this`parentSha
      modifies area, refArea`refs
      ensures r == CommitOnTree(hash, tree, dateTime, author, commitMessage,
                                refArea.head, old(refArea.refs)).result
      ensures r.Failure? ==> area.objects == old(area.objects)
      ensures r.Success? ==> area.objects == Insert(old(area.objects), CommitOnTree(hash, tree, dateTime, author,
                                commitMessage, refArea.head, old(refArea.refs)).writes[0])
      ensures r.Failure? ==> refArea.refs == old(refArea.refs)
      ensures r.Success? ==> parentSha == None && parentLocation == Some(HeadLocation(refArea.head).value)
      ensures r.Success? ==> refArea.refs == old(refArea.refs)[parentLocation.value := r.value]
      ensures r.Failure? ==> body == old(body) && header == old(header) && objectId == old(objectId)
      ensures ParentOf(refArea.head, old(refArea.refs)).Failure? ==>
        parentLocation == old(parentLocation) && parentSha == old(parentSha) && data == old(data)
      ensures ParentOf(refArea.head, old(refArea.refs)).Success? ==>
        && parentLocation == Some(ParentOf(refArea.head, old(refArea.refs)).value.location)
        && data == Some(CreateData(StoredRecord(tree,
                          ParentOf(refArea.head, old(refArea.refs)).value, dateTime, author, commitMessage)))
      ensures r.Failure? && ParentOf(refArea.head, old(refArea.refs)).Success? ==>
        r.error == NotAscii && parentSha == ParentOf(refArea.head, old(refArea.refs)).value.parentSha
      ensures r.Success? ==> IsAscii(data.value) && body == Some(AsciiBytes(data.value))
      ensures r.Success? ==> header == Some(CommitHeader(body.value)) && objectId == Some(r.value)
    {
      ghost var c := CommitOnTree(hash, tree, dateTime, author, commitMessage, refArea.head, refArea.refs);
      var parent := GetParentSha(refArea);
      if parent.Failure? {
        assert c == Outcome(Failure(parent.error), []);
        return Failure(parent.error);
      }
      ghost var p := ParentOf(refArea.head, refArea.refs).value;
      ghost var text := CreateData(StoredRecord(tree, p, dateTime, author, commitMessage));
      parentSha := parent.value;
      r := Record(area, refArea, hash, p);
      if r.Failure? {
        assert EncodeAscii(text) == Failure(NotAscii);
        assert c == Outcome(Failure(NotAscii), []);
      } else {
        assert EncodeAscii(text) == Success(body.value);
        assert c == Outcome(Success(r.value), [Write(r.value, CommitFrame(body.value))]);
      }
    }

    /** Tree(self.dir_path).store(): snapshot the directory into the object area. */
    method SnapshotTree(fs: Node, area: ObjectArea, hash: Digest) returns (r: Result<string>)
      modifies area
      ensures r == StoreTree(hash, ResolveArg(fs, dirPath)).result
      ensures area.objects == InsertAll(old(area.objects), StoreTree(hash, ResolveArg(fs, dirPath)).writes)
    {
      var tree := new Tree(dirPath);
      r := tree.Store(fs, area, hash);
    }

    /** The tail of store() once the tree id and the parent are known: build and encode the record, then publish it. */
    method Record(area: ObjectArea, refArea: RefArea, hash: Digest, ghost p: ParentRef) returns (r: Result<string>)
      requires treeSha.Some? && parentLocation.Some? && parentSha == p.parentSha
      modifies this`data, this`body, this`header, this`objectId, this`parentSha, area, refArea`refs
      ensures data == Some(CreateData(StoredRecord(treeSha.value, p, dateTime, author, commitMessage)))
      ensures r.Success? <==> IsAscii(data.value)
      ensures r.Failure? ==> r.error == NotAscii && parentSha == old(parentSha)
      ensures r.Failure? ==> body == old(body) && header == old(header) && objectId == old(objectId)
      ensures r.Failure? ==> area.objects == old(area.objects) && refArea.refs == old(refArea.refs)
      ensures r.Success? ==> body == Some(AsciiBytes(data.value)) && header == Some(CommitHeader(body.value))
      ensures r.Success? ==> r.value == CreateObjId(hash, header.value, body.value) && objectId == Some(r.value)
      ensures r.Success? ==> area.objects == Insert(old(area.objects), Write(r.value, CommitFrame(body.value)))
      ensures r.Success? ==> refArea.refs == old(refArea.refs)[parentLocation.value := r.value] && parentSha == None
    {
      var text := CreateData(CommitRecord(treeSha.value, parentSha, dateTime, author, commitMessage));
      data := Some(text);
      var encoded := EncodeAscii(text);
      if encoded.Failure? {
        return Failure(encoded.error);
      }
      var id := Publish(area, refArea, hash, encoded.value);
      r := Success(id);
    }

    /** Frame and name the encoded body, write it, point the ref at it and clear the parent. */
    method Publish(area: ObjectArea, refArea: RefArea, hash: Digest, encoded: seq<byte>) returns (id: string)
      requires parentLocation.Some?
      modifies this`body, this`header, this`objectId, this`parentSha, area, refArea`refs
      ensures body == Some(encoded) && header == Some(CommitHeader(encoded))
      ensures id == CreateObjId(hash, CommitHeader(encoded), encoded) && objectId == Some(id)
      ensures area.objects == Insert(old(area.objects), Write(id, CommitFrame(encoded)))
      ensures refArea.refs == old(refArea.refs)[parentLocation.value := id] && parentSha == None
    {
      body := Some(encoded);
      var h := CommitHeader(encoded);
      header := Some(h);
      id := CreateObjId(hash, h, encoded);
      objectId := Some(id);
      area.WriteToDisk(id, h + encoded);
      refArea.refs := refArea.refs[parentLocation.value := id];
      parentSha := None;
    }

    constructor Loaded(objectId: string, c: CommitRecord)
      ensures this.objectId == Some(objectId) && treeSha == Some(c.treeSha) && parentSha == c.parentSha
      ensures dateTime == c.dateTime && author == c.author && commitMessage == c.commitMessage
      ensures dirPath == NoPath
    {
      this.objectId := Some(objectId);
      treeSha, parentSha := Some(c.treeSha), c.parentSha;
      dateTime, author, commitMessage := c.dateTime, c.author, c.commitMessage;
      dirPath := NoPath;
      parentLocation, data, body, header := None, None, None, None;
    }

    /**
     * Commit.load(object_id): read and check the stored object, collect the
     * entries line by line, and build a fresh commit from the required fields.
     */
    static method Load(area: ObjectArea, objectId: string) returns (r: Result<Commit>)
      ensures r.Success? <==> LoadCommit(area.objects, objectId).Success?
      ensures r.Failure? ==> r.error == LoadCommit(area.objects, objectId).error
      ensures r.Success? ==> fresh(r.value) && r.value.objectId == Some(objectId)
      ensures r.Success? ==>
        var c := LoadCommit(area.objects, objectId).value;
        && r.value.treeSha == Some(c.treeSha) && r.value.parentSha == c.parentSha
        && r.value.dateTime == c.dateTime && r.value.author == c.author
        && r.value.commitMessage == c.commitMessage
    {
      var content := ReadObject(area.objects, objectId);
      if content.Failure? {
        return Failure(content.error);
      }
      var text := CommitText(content.value);
      if text.Failure? {
        return Failure(text.error);
      }
      var entries := CollectEntries(SplitLines(text.value));
      var record := RecordOf(entries);
      if record.Failure? {
        return Failure(record.error);
      }
      var c := new Commit.Loaded(objectId, record.value);
      return Success(c);
    }
  }
}
