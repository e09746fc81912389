/**
 * The plaintext media upload: a path or a stream is first copied to a temporary
 * file while its length and digest are taken, uploaded from there, and the file
 * removed on every way out.
 */
module PlaintextUpload {
  import opened Prelude

  /** Where the media comes from; a stream or file arrives in chunks. */
  datatype Source =
    | InMemory(bytes: Bytes)
    | AtPath(readable: bool, chunks: seq<Bytes>)
    | Stream(chunks: seq<Bytes>)
    | Unsupported

  /** The steps that can fail, and how. */
  datatype Faults = Faults(
    opens: bool,
    failsAtChunk: Option<nat>,
    hostKnown: bool,
    idDrawn: bool,
    uploads: bool,
    responds: bool,
    unlinks: bool)

  type FileId = nat

  /** What the transfer is given: bytes in memory, or a file it reads from. */
  datatype Body = Buffer(bytes: Bytes) | FromFile(file: FileId)

  datatype Prepared = Prepared(fileSha256: Bytes, byteLength: nat, body: Body)

  datatype Uploaded = Uploaded(fileSha256: Bytes, byteLength: nat)

  /** A use of the body by the transfer, with the bytes that were there at that moment. */
  datatype Use = Use(seen: Option<Bytes>, contentLength: nat)

  function Content(source: Source): (b: Bytes) {
    match source
    case InMemory(bytes) => bytes
    case AtPath(_, chunks) => Concat(chunks)
    case Stream(chunks) => Concat(chunks)
    case Unsupported => []
  }

  /** The copy to a temporary file runs through. */
  predicate CopySucceeds(chunks: seq<Bytes>, f: Faults) {
    f.opens && (f.failsAtChunk.Some? ==> f.failsAtChunk.value >= |chunks|)
  }

  predicate PreparationSucceeds(source: Source, f: Faults) {
    match source
    case InMemory(_) => true
    case AtPath(readable, chunks) => readable && CopySucceeds(chunks, f)
    case Stream(chunks) => CopySucceeds(chunks, f)
    case Unsupported => false
  }

  /** A temporary file comes into being at all. */
  predicate CreatesFile(source: Source, f: Faults) {
    f.opens && match source
      case AtPath(readable, _) => readable
      case Stream(_) => true
      case _ => false
  }

  /**
   * Which sources can be prepared: bytes in memory always, a path or a stream
   * exactly when it can be read, the temporary file opens and every chunk
   * comes before the fault, anything else never. A file comes into being for a
   * readable path or a stream whenever it opens, and no other fault matters.
   */
  lemma PreparedExactly(chunks: seq<Bytes>, bytes: Bytes, readable: bool, f: Faults)
    ensures PreparationSucceeds(InMemory(bytes), f) && !PreparationSucceeds(Unsupported, f)
    ensures PreparationSucceeds(Stream(chunks), f)
       <==> f.opens && forall k | 0 <= k < |chunks| :: f.failsAtChunk != Some(k)
    ensures PreparationSucceeds(AtPath(readable, chunks), f) <==> readable && PreparationSucceeds(Stream(chunks), f)
    ensures !CreatesFile(InMemory(bytes), f) && !CreatesFile(Unsupported, f)
    ensures CreatesFile(Stream(chunks), f) == f.opens
    ensures CreatesFile(AtPath(readable, chunks), f) == (f.opens && readable)
    ensures Content(Stream(chunks)) == Content(AtPath(readable, chunks)) == Concat(chunks)
    ensures Content(InMemory(bytes)) == bytes
  {
    if f.failsAtChunk.Some? && f.failsAtChunk.value < |chunks| {
      assert f.failsAtChunk == Some(f.failsAtChunk.value);
    }
  }

  class TempFiles {
    var live: map<FileId, Bytes>
    var nextId: FileId
    var uses: seq<Use>

    ghost predicate Valid()
      reads this
    {
      forall id | id in live :: id < nextId
    }

    constructor ()
      ensures Valid() && live == map[] && uses == []
    {
      live, nextId, uses := map[], 0, [];
    }

    method Unlink(id: FileId, works: bool)
      requires Valid()
      modifies this
      ensures Valid() && nextId == old(nextId) && uses == old(uses)
      ensures live == if works then old(live) - {id} else old(live)
    {
      if works {
        live := live - {id};
      }
    }

    /** The transfer looks at the body. */
    method Touch(body: Body, contentLength: nat)
      requires Valid()
      modifies this
      ensures Valid() && nextId == old(nextId) && live == old(live)
      ensures uses == old(uses) + [Use(Readable(old(live), body), contentLength)]
    {
      uses := uses + [Use(Readable(live, body), contentLength)];
    }

    method StreamToTempFileWithSha256(chunks: seq<Bytes>, sha256: Bytes -> Bytes, f: Faults)
      returns (r: Outcome<(FileId, Bytes, nat)>)
      requires Valid()
      modifies this
      ensures Valid() && uses == old(uses)
      ensures r.Returned? <==> CopySucceeds(chunks, f)
      ensures r.Returned? ==>
        var (id, digest, byteLength) := r.value;
        && id !in old(live) && live == old(live)[id := Concat(chunks)]
        && digest == sha256(Concat(chunks)) && byteLength == |Concat(chunks)|
      ensures r.Thrown? && (f.unlinks || !f.opens) ==> live == old(live)
      ensures r.Thrown? && f.opens && !f.unlinks
          ==> live.Keys == old(live).Keys + {old(nextId)} && old(nextId) !in old(live)
    {
      var id := nextId;
      nextId := nextId + 1;
      if !f.opens {
        Unlink(id, f.unlinks);
        assert old(live) - {id} == old(live);
        return Thrown;
      }
      live := live[id := []];
      var hashed: Bytes := [];
      var byteLength := 0;
      var i := 0;
      while i < |chunks|
        invariant 0 <= i <= |chunks|
        invariant f.failsAtChunk.Some? ==> i <= f.failsAtChunk.value
        invariant hashed == Concat(chunks[..i]) && byteLength == |hashed|
        invariant Valid() && uses == old(uses) && live == old(live)[id := hashed]
      {
        if f.failsAtChunk == Some(i) {
          Unlink(id, f.unlinks);
          assert old(live)[id := hashed] - {id} == old(live);
          return Thrown;
        }
        assert chunks[..i + 1][..i] == chunks[..i];
        hashed := hashed + chunks[i];
        byteLength := byteLength + |chunks[i]|;
        live := live[id := live[id] + chunks[i]];
        i := i + 1;
      }
      assert chunks[..i] == chunks;
      return Returned((id, sha256(hashed), byteLength));
    }

    method PreparePlaintextUploadSource(media: Source, sha256: Bytes -> Bytes, f: Faults) returns (r: Outcome<Prepared>)
      requires Valid()
      modifies this
      ensures Valid() && uses == old(uses)
      ensures r.Returned? <==> PreparationSucceeds(media, f)
      ensures r.Returned? ==> Describes(r.value, media, sha256) && Holds(r.value.body, old(live), live, Content(media))
      ensures r.Returned? ==> (r.value.body.FromFile? <==> CreatesFile(media, f))
      ensures r.Thrown? && (f.unlinks || !CreatesFile(media, f)) ==> live == old(live)
      ensures r.Thrown? && CreatesFile(media, f) && !f.unlinks ==> live.Keys != old(live).Keys
    {
      match media
      case InMemory(bytes) =>
        return Returned(Prepared(sha256(bytes), |bytes|, Buffer(bytes)));
      case AtPath(readable, chunks) =>
        if !readable {
          return Thrown;
        }
        var copy := StreamToTempFileWithSha256(chunks, sha256, f);
        if copy.Thrown? {
          return Thrown;
        }
        return Returned(Prepared(copy.value.1, copy.value.2, FromFile(copy.value.0)));
      case Stream(chunks) =>
        var copy := StreamToTempFileWithSha256(chunks, sha256, f);
        if copy.Thrown? {
          return Thrown;
        }
        return Returned(Prepared(copy.value.1, copy.value.2, FromFile(copy.value.0)));
      case Unsupported =>
        return Thrown;
    }

    /**
     * The upload. For every source and every fault: each time the transfer
     * uses the body it finds the complete media under the announced length;
     * the temporary files on exit are those on entry, unless one was created
     * and its removal failed, and then they are not.
     */
    method PerformPlaintextMediaUpload(media: Source, sha256: Bytes -> Bytes, f: Faults) returns (r: Outcome<Uploaded>)
      requires Valid()
      modifies this
      ensures Valid()
      ensures live == old(live) <==> f.unlinks || !CreatesFile(media, f)
      ensures |uses| >= |old(uses)| && uses[..|old(uses)|] == old(uses)
      ensures forall i | |old(uses)| <= i < |uses| :: uses[i] == Use(Some(Content(media)), |Content(media)|)
      ensures r.Returned? <==> PreparationSucceeds(media, f) && f.hostKnown && f.idDrawn && f.uploads && f.responds
      ensures r.Returned? ==> r.value == Uploaded(sha256(Content(media)), |Content(media)|) && |uses| == |old(uses)| + 2
    {
      var prepared := PreparePlaintextUploadSource(media, sha256, f);
      if prepared.Thrown? {
        return Thrown;
      }
      r := UploadPrepared(prepared.value, f);
      if prepared.value.body.FromFile? {
        Unlink(prepared.value.body.file, f.unlinks);
        assert old(live)[prepared.value.body.file := Content(media)] - {prepared.value.body.file} == old(live);
      }
    }

    /** The part of the upload the removal is attached to. */
    method UploadPrepared(prepared: Prepared, f: Faults) returns (r: Outcome<Uploaded>)
      requires Valid()
      modifies this
      ensures Valid() && live == old(live)
      ensures |uses| >= |old(uses)| && uses[..|old(uses)|] == old(uses)
      ensures forall i | |old(uses)| <= i < |uses| ::
          uses[i] == Use(Readable(old(live), prepared.body), prepared.byteLength)
      ensures r.Returned? <==> f.hostKnown && f.idDrawn && f.uploads && f.responds
      ensures r.Returned? ==> r.value == Uploaded(prepared.fileSha256, prepared.byteLength) && |uses| == |old(uses)| + 2
    {
      if !f.hostKnown || !f.idDrawn {
        return Thrown;
      }
      Touch(prepared.body, prepared.byteLength);
      if !f.uploads {
        return Thrown;
      }
      Touch(prepared.body, prepared.byteLength);
      if !f.responds {
        return Thrown;
      }
      return Returned(Uploaded(prepared.fileSha256, prepared.byteLength));
    }
  }

  function Readable(live: map<FileId, Bytes>, body: Body): (seen: Option<Bytes>) {
    match body
    case Buffer(bytes) => Some(bytes)
    case FromFile(id) => if id in live then Some(live[id]) else None
  }

  predicate Describes(p: Prepared, media: Source, sha256: Bytes -> Bytes) {
    p.fileSha256 == sha256(Content(media)) && p.byteLength == |Content(media)|
  }

  /** The body's bytes are the media; a backing file is new and the only change. */
  predicate Holds(body: Body, before: map<FileId, Bytes>, after: map<FileId, Bytes>, content: Bytes) {
    match body
    case Buffer(bytes) => bytes == content && after == before
    case FromFile(id) => id !in before && after == before[id := content]
  }
}
