/**
 * The object codec shared by blobs, trees and commits (utils.py): the
 * "<tag> <len>\0" header, the digest that names header||body, the fan-out
 * key an id is stored under, the idempotent write into the object area, and
 * the file and directory validators.
 */
module Utils {
  import opened Outcomes
  import opened Text
  import opened FileSystem

  // ------------------------------------------------------------- header

  /** A kind tag as the code passes it: non-empty ASCII, no whitespace, no NUL. */
  predicate IsTag(tag: string) {
    tag != [] && IsAscii(tag) && NoSpace(tag) && '\0' !in tag
  }

  /** make_header(tag, body): the ASCII text "<tag> <len(body)>" followed by one NUL byte. */
  function MakeHeader(tag: string, body: seq<byte>): (h: seq<byte>)
    requires IsAscii(tag)
    ensures |h| == |tag| + |Decimal(|body|)| + 2
    ensures h[|h| - 1] == 0
  {
    DecimalIsAsciiWord(|body|);
    AsciiBytes(tag + " " + Decimal(|body|)) + [0]
  }

  /** The header sees only the body's length, never its contents. */
  lemma HeaderDependsOnLengthOnly(tag: string, b1: seq<byte>, b2: seq<byte>)
    requires IsAscii(tag)
    ensures MakeHeader(tag, b1) == MakeHeader(tag, b2) <==> |b1| == |b2|
  {
    if MakeHeader(tag, b1) == MakeHeader(tag, b2) {
      var t1, t2 := tag + " " + Decimal(|b1|), tag + " " + Decimal(|b2|);
      DecimalIsAsciiWord(|b1|);
      DecimalIsAsciiWord(|b2|);
      var h := MakeHeader(tag, b1);
      assert AsciiBytes(t1) == h[..|h| - 1] == AsciiBytes(t2);
      DecodeEncodedAscii(t1);
      DecodeEncodedAscii(t2);
      assert t1[|tag| + 1..] == Decimal(|b1|);
      assert t2[|tag| + 1..] == Decimal(|b2|);
      ParseDecimal(|b1|);
      ParseDecimal(|b2|);
    }
  }

  /** Index of the first NUL byte (bytes.find(b'\0')), if any. */
  function FindNul(content: seq<byte>): (r: Option<nat>)
    ensures r.Some? ==> r.value < |content| && content[r.value] == 0
    ensures r.Some? ==> forall i :: 0 <= i < r.value ==> content[i] != 0
    ensures r.None? ==> forall i :: 0 <= i < |content| ==> content[i] != 0
  {
    if content == [] then None
    else if content[0] == 0 then Some(0)
    else match FindNul(content[1..])
      case None => None
      case Some(i) => Some(i + 1)
  }

  /** For a well-formed tag the header's only NUL is its last byte, so it ends the header. */
  lemma HeaderEndsAtFirstNul(tag: string, body: seq<byte>, rest: seq<byte>)
    requires IsTag(tag)
    ensures FindNul(MakeHeader(tag, body) + rest) == Some(|MakeHeader(tag, body)| - 1)
  {
    var h := MakeHeader(tag, body);
    var t := tag + " " + Decimal(|body|);
    DecimalIsAsciiWord(|body|);
    assert h[..|h| - 1] == AsciiBytes(t);
    forall i | 0 <= i < |h| - 1 ensures (h + rest)[i] != 0 {
      assert (h + rest)[i] == h[i] == AsciiBytes(t)[i];
      if i < |tag| {
        assert t[i] == tag[i];
        assert tag[i] != '\0';
      } else if i > |tag| {
        assert t[i] == Decimal(|body|)[i - |tag| - 1];
      }
    }
    var r := FindNul(h + rest);
    assert (h + rest)[|h| - 1] == 0;
    assert r.Some?;
  }

  /** The fields of a header: its kind, its length text, and where its NUL stands. */
  datatype HeaderFields = HeaderFields(kind: string, length: string, nul: nat)

  /**
   * The header split both loaders perform: find the first NUL, decode the bytes
   * before it, and unpack exactly two whitespace-separated fields.
   */
  function SplitHeader(content: seq<byte>): (r: Result<HeaderFields>)
    ensures r.Success? ==> r.value.nul < |content| && FindNul(content) == Some(r.value.nul)
    ensures FindNul(content).None? ==> r == Failure(MalformedHeader)
    ensures FindNul(content).Some? && DecodeAscii(content[..FindNul(content).value]).Failure? ==>
      r == Failure(NotAscii)
    ensures FindNul(content).Some? && DecodeAscii(content[..FindNul(content).value]).Success? ==>
      (r.Success? <==> |Fields(DecodeAscii(content[..FindNul(content).value]).value)| == 2)
    ensures r.Failure? && r != Failure(NotAscii) ==> r == Failure(MalformedHeader)
    ensures r.Success? ==>
      [r.value.kind, r.value.length] == Fields(DecodeAscii(content[..r.value.nul]).value)
  {
    match FindNul(content)
    case None => Failure(MalformedHeader)
    case Some(i) =>
      match DecodeAscii(content[..i])
      case Failure(e) => Failure(e)
      case Success(text) =>
        var fields := Fields(text);
        if |fields| != 2 then Failure(MalformedHeader)
        else Success(HeaderFields(fields[0], fields[1], i))
  }

  /** The bytes before a frame's NUL are the ASCII text "<tag> <len>", and they decode back to it. */
  lemma FrameHeaderText(tag: string, body: seq<byte>, rest: seq<byte>)
    requires IsAscii(tag)
    ensures IsAscii(tag + " " + Decimal(|body|))
    ensures DecodeAscii((MakeHeader(tag, body) + rest)[..|MakeHeader(tag, body)| - 1])
         == Success(tag + " " + Decimal(|body|))
  {
    var t := tag + " " + Decimal(|body|);
    DecimalIsAsciiWord(|body|);
    var h := MakeHeader(tag, body);
    assert (h + rest)[..|h| - 1] == AsciiBytes(t);
    DecodeEncodedAscii(t);
  }

  /** Whatever follows it, a framed header splits back into its tag and decimal length. */
  lemma SplitHeaderOfFrame(tag: string, body: seq<byte>, rest: seq<byte>)
    requires IsTag(tag)
    ensures SplitHeader(MakeHeader(tag, body) + rest)
         == Success(HeaderFields(tag, Decimal(|body|), |MakeHeader(tag, body)| - 1))
  {
    HeaderEndsAtFirstNul(tag, body, rest);
    FrameHeaderText(tag, body, rest);
    DecimalIsAsciiWord(|body|);
    FieldsOfTwoWords(tag, Decimal(|body|));
  }

  // ------------------------------------------------------------- ids

  /** A lower-case hexadecimal digit. */
  predicate IsHexChar(c: char) { '0' <= c <= '9' || 'a' <= c <= 'f' }

  /** A hexdigest of SHA-256: 64 lower-case hexadecimal characters. */
  predicate IsHexDigest(s: string) {
    |s| == 64 && forall i :: 0 <= i < |s| ==> IsHexChar(s[i])
  }

  /** SHA-256 as hashlib.sha256(..).hexdigest(), kept abstract: only its output format is known. */
  type Digest = f: seq<byte> -> string | forall b :: IsHexDigest(f(b))
    witness (b: seq<byte>) => seq(64, _ => '0')

  /** create_obj_id(header, body): the digest of header||body. */
  function CreateObjId(hash: Digest, header: seq<byte>, body: seq<byte>): (id: string)
    ensures IsHexDigest(id)
    ensures id == hash(header + body)
  {
    hash(header + body)
  }

  /** Objects with equal header||body bytes get equal ids, however the bytes are split. */
  lemma ObjIdOfBytes(hash: Digest, h1: seq<byte>, b1: seq<byte>, h2: seq<byte>, b2: seq<byte>)
    requires h1 + b1 == h2 + b2
    ensures CreateObjId(hash, h1, b1) == CreateObjId(hash, h2, b2)
  {
  }

  lemma HexDigestIsAsciiWord(id: string)
    requires IsHexDigest(id)
    ensures IsAscii(id) && NoSpace(id) && NoLineBreak(id) && ':' !in id
  {
    forall i | 0 <= i < |id| ensures IsAsciiChar(id[i]) && !IsSpace(id[i]) && !IsLineBreak(id[i]) {
      assert IsHexChar(id[i]);
    }
    assert forall i :: 0 <= i < |id| ==> id[i] != ':';
  }

  // ------------------------------------------------------------- storage

  /** Where an object lives below the object area: a two-character folder and a file name. */
  datatype ObjectPath = ObjectPath(folder: string, fileName: string)

  /** obj_id[:2], obj_id[2:]: the fan-out split write_to_disk uses. */
  function SplitId(id: string): (p: ObjectPath)
    ensures p.folder + p.fileName == id
    ensures |id| >= 2 ==> |p.folder| == 2
    ensures |id| < 2 ==> p.fileName == []
  {
    if |id| < 2 then ObjectPath(id, "") else ObjectPath(id[..2], id[2..])
  }

  /** Distinct ids never share a storage path. */
  lemma SplitIdInjective(a: string, b: string)
    requires SplitId(a) == SplitId(b)
    ensures a == b
  {
  }

  /** The object area: file contents by storage path. */
  type Objects = map<ObjectPath, seq<byte>>

  /** One write_to_disk call: an id and the header||body bytes for it. */
  datatype Write = Write(id: string, bytes: seq<byte>)

  /** A store's result together with the object writes it made, in order, even when it failed. */
  datatype Outcome<T> = Outcome(result: Result<T>, writes: seq<Write>)

  /** write_to_disk on the object area: the bytes are stored only if nothing is stored at the path yet. */
  function Insert(m: Objects, w: Write): (r: Objects)
    ensures SplitId(w.id) in r
    ensures r[SplitId(w.id)] == if SplitId(w.id) in m then m[SplitId(w.id)] else w.bytes
  {
    var key := SplitId(w.id);
    if key in m then m else m[key := w.bytes]
  }

  /** No other path is added or changed by a write, and nothing stored is overwritten. */
  lemma InsertFrame(m: Objects, w: Write)
    ensures forall k :: k != SplitId(w.id) ==> (k in Insert(m, w) <==> k in m)
    ensures forall k :: k in m ==> k in Insert(m, w) && Insert(m, w)[k] == m[k]
  {
  }

  /** Writing an id that is already present changes nothing, whatever the bytes. */
  lemma InsertPresent(m: Objects, w: Write)
    requires SplitId(w.id) in m
    ensures Insert(m, w) == m
  {
  }

  /** A sequence of write_to_disk calls, in order. */
  function InsertAll(m: Objects, ws: seq<Write>): Objects
    decreases ws
  {
    if ws == [] then m else InsertAll(Insert(m, ws[0]), ws[1..])
  }

  lemma InsertAllSingle(m: Objects, w: Write)
    ensures InsertAll(m, [w]) == Insert(m, w)
  {
    assert [w][1..] == [];
  }

  lemma {:induction false} InsertAllAppend(m: Objects, a: seq<Write>, b: seq<Write>)
    ensures InsertAll(m, a + b) == InsertAll(InsertAll(m, a), b)
    decreases a
  {
    if a == [] {
      assert a + b == b;
    } else {
      assert (a + b)[1..] == a[1..] + b;
      InsertAllAppend(Insert(m, a[0]), a[1..], b);
    }
  }

  /** Stored objects are never overwritten, and every written id is present afterwards. */
  lemma {:induction false} InsertAllKeeps(m: Objects, ws: seq<Write>)
    ensures forall k :: k in m ==> k in InsertAll(m, ws) && InsertAll(m, ws)[k] == m[k]
    ensures forall i :: 0 <= i < |ws| ==> SplitId(ws[i].id) in InsertAll(m, ws)
    ensures forall k :: k in InsertAll(m, ws) ==>
      k in m || exists i :: 0 <= i < |ws| && k == SplitId(ws[i].id)
    decreases ws
  {
    if ws != [] {
      InsertAllKeeps(Insert(m, ws[0]), ws[1..]);
      InsertFrame(m, ws[0]);
      var r := InsertAll(m, ws);
      forall k | k in r ensures k in m || exists i :: 0 <= i < |ws| && k == SplitId(ws[i].id) {
        if k !in m && k != SplitId(ws[0].id) {
          var i :| 0 <= i < |ws[1..]| && k == SplitId(ws[1..][i].id);
          assert k == SplitId(ws[i + 1].id);
        }
      }
      forall i | 0 <= i < |ws| ensures SplitId(ws[i].id) in r {
        if i > 0 { assert ws[i] == ws[1..][i - 1]; }
      }
    }
  }

  /** Replaying writes whose ids are all present leaves the area as it is. */
  lemma {:induction false} InsertAllPresent(m: Objects, ws: seq<Write>)
    requires forall i :: 0 <= i < |ws| ==> SplitId(ws[i].id) in m
    ensures InsertAll(m, ws) == m
    decreases ws
  {
    if ws != [] {
      InsertPresent(m, ws[0]);
      InsertAllPresent(m, ws[1..]);
    }
  }

  /** Storing the same objects twice is the same as storing them once. */
  lemma InsertAllIdempotent(m: Objects, ws: seq<Write>)
    ensures InsertAll(InsertAll(m, ws), ws) == InsertAll(m, ws)
  {
    InsertAllKeeps(m, ws);
    InsertAllPresent(InsertAll(m, ws), ws);
  }

  /** The object directory under the repository root, as a mutable map. */
  class ObjectArea {
    var objects: Objects

    constructor()
      ensures objects == map[]
    {
      objects := map[];
    }

    /** write_to_disk(BASE_DIR, obj_id, obj_bytes). */
    method WriteToDisk(objId: string, objBytes: seq<byte>)
      modifies this
      ensures objects == Insert(old(objects), Write(objId, objBytes))
    {
      var path := SplitId(objId);
      if path !in objects {
        objects := objects[path := objBytes];
      }
    }
  }

  /**
   * decode_sha_to_path followed by validate_file and a full read: the stored
   * bytes of an object, failing when nothing or an empty file is stored.
   */
  function ReadObject(m: Objects, id: string): (r: Result<seq<byte>>)
    ensures r.Success? <==> SplitId(id) in m && m[SplitId(id)] != []
    ensures r.Success? ==> r.value == m[SplitId(id)]
    ensures SplitId(id) !in m ==> r == Failure(FileNotFound)
  {
    var path := SplitId(id);
    if path !in m then Failure(FileNotFound)
    else if m[path] == [] then Failure(EmptyFile)
    else Success(m[path])
  }

  // ------------------------------------------------------------- validation

  /** validate_file followed by a read: a missing path or a directory fails, so does an empty file. */
  function ValidateFile(n: Option<Node>): (r: Result<seq<byte>>)
    ensures r.Success? <==> n.Some? && n.value.File? && n.value.data != []
    ensures r.Success? ==> r.value == n.value.data
    ensures (n.None? || n.value.Dir?) ==> r == Failure(FileNotFound)
    ensures n.Some? && n.value.File? && n.value.data == [] ==> r == Failure(EmptyFile)
  {
    match n
    case Some(File(data)) => if data == [] then Failure(EmptyFile) else Success(data)
    case _ => Failure(FileNotFound)
  }

  /** validate_directory: a missing path fails, so does a path that is not a directory. */
  function ValidateDirectory(n: Option<Node>): (r: Result<seq<(string, Node)>>)
    ensures r.Success? <==> n.Some? && n.value.Dir?
    ensures n.None? ==> r == Failure(FileNotFound)
    ensures n.Some? && n.value.File? ==> r == Failure(NotADirectory)
  {
    match n
    case None => Failure(FileNotFound)
    case Some(File(_)) => Failure(NotADirectory)
    case Some(Dir(entries)) => Success(entries)
  }
}
