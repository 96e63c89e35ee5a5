/**
 * Blobs (blob.py): a file's bytes framed under the tag "blob", named by the
 * digest of the frame and written once into the object area; and the reverse
 * path that finds the header, checks the tag and slices the body by the
 * declared length.
 */
module Blobs {
  import opened Outcomes
  import opened Text
  import opened FileSystem
  import opened Utils

  /** The bytes stored for a blob: its header followed by the file's bytes. */
  function BlobFrame(data: seq<byte>): seq<byte> {
    MakeHeader("blob", data) + data
  }

  /** The id Blob.store returns for a file with these bytes. */
  function BlobId(hash: Digest, data: seq<byte>): (id: string)
    ensures IsHexDigest(id)
  {
    CreateObjId(hash, MakeHeader("blob", data), data)
  }

  /**
   * What Blob(path).store() does, given what the path resolves to: validate the
   * file, then frame, name and write it; nothing is written when validation fails.
   */
  function StoreBlob(hash: Digest, n: Option<Node>): (o: Outcome<string>)
    ensures o.result.Success? <==> n.Some? && n.value.File? && n.value.data != []
    ensures o.result.Success? ==>
      && o.result.value == BlobId(hash, n.value.data)
      && o.writes == [Write(o.result.value, BlobFrame(n.value.data))]
    ensures o.result.Failure? ==> o.writes == [] && o.result.error == ValidateFile(n).error
  {
    match ValidateFile(n)
    case Failure(e) => Outcome(Failure(e), [])
    case Success(data) =>
      var id := BlobId(hash, data);
      Outcome(Success(id), [Write(id, BlobFrame(data))])
  }

  /**
   * The parse in Blob.load: split the header at the first NUL, require the tag
   * "blob", and take exactly the declared number of bytes after the NUL; a body
   * shorter than declared fails, bytes beyond it are ignored.
   */
  function DecodeBlob(content: seq<byte>): (r: Result<seq<byte>>)
    ensures FindNul(content).None? ==> r == Failure(MalformedHeader)
    ensures SplitHeader(content).Failure? ==> r == Failure(SplitHeader(content).error)
    ensures r.Success? ==>
      && SplitHeader(content).Success?
      && SplitHeader(content).value.kind == "blob"
      && ParseInt(SplitHeader(content).value.length) == Some(|r.value|)
      && SplitHeader(content).value.nul + 1 + |r.value| <= |content|
      && r.value == content[SplitHeader(content).value.nul + 1..][..|r.value|]
  {
    var h :- SplitHeader(content);
    if h.kind != "blob" then Failure(WrongKind(h.kind))
    else match ParseInt(h.length)
      case None => Failure(MalformedHeader)
      case Some(n) =>
        var start := h.nul + 1;
        if n < 0 || |content| - start < n then Failure(LengthMismatch)
        else Success(content[start..start + n])
  }

  /** Blob.load(object_id) as a value: read the stored object, then decode it. */
  function LoadBlob(m: Objects, id: string): (r: Result<seq<byte>>)
    ensures SplitId(id) !in m ==> r == Failure(FileNotFound)
    ensures SplitId(id) in m && m[SplitId(id)] == [] ==> r == Failure(EmptyFile)
    ensures SplitId(id) in m && m[SplitId(id)] != [] ==> r == DecodeBlob(m[SplitId(id)])
  {
    var content :- ReadObject(m, id);
    DecodeBlob(content)
  }

  /** Decoding a blob frame gives back the file's bytes, whatever trails the frame. */
  lemma DecodeBlobFrame(data: seq<byte>, extra: seq<byte>)
    ensures DecodeBlob(BlobFrame(data) + extra) == Success(data)
  {
    var h := MakeHeader("blob", data);
    assert IsTag("blob");
    assert BlobFrame(data) + extra == h + (data + extra);
    SplitHeaderOfFrame("blob", data, data + extra);
    ParseDecimal(|data|);
    assert (h + (data + extra))[|h|..|h| + |data|] == data;
  }

  /** A frame whose body lost bytes is rejected as a length mismatch. */
  lemma DecodeBlobTruncated(data: seq<byte>, k: nat)
    requires k < |data|
    ensures DecodeBlob(MakeHeader("blob", data) + data[..k]) == Failure(LengthMismatch)
  {
    assert IsTag("blob");
    SplitHeaderOfFrame("blob", data, data[..k]);
    ParseDecimal(|data|);
  }

  /** A frame of any other kind is rejected with the kind it carries. */
  lemma DecodeBlobWrongKind(tag: string, body: seq<byte>)
    requires IsTag(tag) && tag != "blob"
    ensures DecodeBlob(MakeHeader(tag, body) + body) == Failure(WrongKind(tag))
  {
    SplitHeaderOfFrame(tag, body, body);
  }

  /**
   * Round trip: after storing a file's bytes, loading the returned id gives
   * those bytes back, provided any object already at that path is the same frame.
   */
  lemma StoreThenLoadBlob(hash: Digest, m: Objects, data: seq<byte>)
    requires data != []
    requires SplitId(BlobId(hash, data)) in m ==> m[SplitId(BlobId(hash, data))] == BlobFrame(data)
    ensures LoadBlob(Insert(m, Write(BlobId(hash, data), BlobFrame(data))), BlobId(hash, data))
         == Success(data)
  {
    var id := BlobId(hash, data);
    var m' := Insert(m, Write(id, BlobFrame(data)));
    assert m'[SplitId(id)] == BlobFrame(data);
    DecodeBlobFrame(data, []);
    assert BlobFrame(data) + [] == BlobFrame(data);
  }

  /** The value held by the header attribute: bytes after store, the tag text after load. */
  datatype HeaderValue = HeaderBytes(bytes: seq<byte>) | HeaderText(text: string)

  class Blob {
    const filePath: PathArg
    var objectId: Option<string>
    var data: Option<seq<byte>>
    var header: Option<HeaderValue>
    var folder: Option<string>
    var fileName: Option<string>
    const path: Option<ObjectPath>

    constructor (filePath: PathArg)
      ensures this.filePath == filePath
      ensures objectId == None && data == None && header == None
      ensures folder == None && fileName == None && path == None
    {
      this.filePath := filePath;
      objectId, data, header := None, None, None;
      folder, fileName, path := None, None, None;
    }

    /** Blob(file_path): a missing path is refused. */
    static method New(filePath: PathArg) returns (r: Result<Blob>)
      ensures r.Success? <==> filePath != NoPath
      ensures r.Failure? ==> r.error == MissingPath
      ensures r.Success? ==> fresh(r.value) && r.value.filePath == filePath
      ensures r.Success? ==> r.value.objectId == None && r.value.data == None
    {
      if filePath == NoPath {
        return Failure(MissingPath);
      }
      var b := new Blob(filePath);
      return Success(b);
    }

    /**
     * Blob.store(): validate and read the file, frame it under "blob", name it
     * by its digest, remember the fan-out split and write it once.
     */
    method Store(fs: Node, area: ObjectArea, hash: Digest) returns (r: Result<string>)
      modifies this, area
      ensures r == StoreBlob(hash, ResolveArg(fs, filePath)).result
      ensures area.objects == InsertAll(old(area.objects), StoreBlob(hash, ResolveArg(fs, filePath)).writes)
      ensures r.Failure? ==> unchanged(this)
      ensures r.Success? ==> data == Some(ResolveArg(fs, filePath).value.data) && objectId == Some(r.value)
      ensures r.Success? ==> header == Some(HeaderBytes(MakeHeader("blob", data.value)))
      ensures r.Success? ==> folder == Some(SplitId(r.value).folder) && fileName == Some(SplitId(r.value).fileName)
    {
      r := StoreResolved(ResolveArg(fs, filePath), area, hash);
    }

    /** The part of store() that follows the path lookup, given the node the path names. */
    method StoreResolved(n: Option<Node>, area: ObjectArea, hash: Digest) returns (r: Result<string>)
      modifies this, area
      ensures r == StoreBlob(hash, n).result
      ensures area.objects == InsertAll(old(area.objects), StoreBlob(hash, n).writes)
      ensures r.Failure? ==> unchanged(this)
      ensures r.Success? ==> data == Some(n.value.data) && objectId == Some(r.value)
      ensures r.Success? ==> header == Some(HeaderBytes(MakeHeader("blob", data.value)))
      ensures r.Success? ==> folder == Some(SplitId(r.value).folder) && fileName == Some(SplitId(r.value).fileName)
    {
      ghost var o := StoreBlob(hash, n);
      var checked := ValidateFile(n);
      if checked.Failure? {
        assert o == Outcome(Failure(checked.error), []);
        return Failure(checked.error);
      }
      var bytes := checked.value;
      var h := MakeHeader("blob", bytes);
      var id := CreateObjId(hash, h, bytes);
      assert o == Outcome(Success(id), [Write(id, h + bytes)]);
      InsertAllSingle(area.objects, Write(id, h + bytes));
      var split := SplitId(id);
      data, header, objectId, folder, fileName := Some(bytes), Some(HeaderBytes(h)), Some(id), Some(split.folder), Some(split.fileName);
      area.WriteToDisk(id, h + bytes);
      r := Success(id);
    }

    constructor Loaded(objectId: string, data: seq<byte>)
      ensures this.objectId == Some(objectId) && this.data == Some(data)
      ensures header == Some(HeaderText("blob")) && path == Some(SplitId(objectId))
      ensures folder == Some(SplitId(objectId).folder) && fileName == Some(SplitId(objectId).fileName)
      ensures filePath == NoPath
    {
      this.objectId := Some(objectId);
      this.data := Some(data);
      header := Some(HeaderText("blob"));
      path := Some(SplitId(objectId));
      folder, fileName := Some(SplitId(objectId).folder), Some(SplitId(objectId).fileName);
      filePath := NoPath;
    }

    /**
     * Blob.load(object_id): a fresh blob holding the decoded bytes, the id, the
     * object's path and the id's fan-out split.
     */
    static method Load(area: ObjectArea, objectId: string) returns (r: Result<Blob>)
      ensures r.Success? <==> LoadBlob(area.objects, objectId).Success?
      ensures r.Failure? ==> r.error == LoadBlob(area.objects, objectId).error
      ensures r.Success? ==>
        && fresh(r.value)
        && r.value.data == Some(LoadBlob(area.objects, objectId).value)
        && r.value.objectId == Some(objectId)
        && r.value.header == Some(HeaderText("blob"))
        && r.value.path == Some(SplitId(objectId))
        && r.value.folder == Some(objectId[..if |objectId| < 2 then |objectId| else 2])
        && r.value.fileName == Some(objectId[if |objectId| < 2 then |objectId| else 2..])
    {
      var decoded := LoadBlob(area.objects, objectId);
      if decoded.Failure? {
        return Failure(decoded.error);
      }
      var b := new Blob.Loaded(objectId, decoded.value);
      return Success(b);
    }
  }
}
