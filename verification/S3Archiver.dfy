/** Shared handle on the remote side. Archiver and client get the same one, so
    the order of their calls is part of the state. */
module RemoteHandle {
  import opened Transport
  import opened RemoteServices

  class Remote {
    const oracle: nat -> Reply
    var session: Session

    constructor (oracle: nat -> Reply)
      ensures this.oracle == oracle && session == Session(World(map[], 0, map[], []), [])
    {
      this.oracle := oracle;
      session := Session(World(map[], 0, map[], []), []);
    }

    /** A call with the retries of the caller's own transport policy. */
    method Send(req: Request, policy: TransportPolicy) returns (r: Outcome<int>, ghost calls: nat)
      modifies this
      ensures RetriedTo(Calling(oracle, req), old(session), policy.maxRetries, session, r, calls)
    {
      var s, out, n, sleeps := ExecuteWithRetry(Calling(oracle, req), session, policy);
      session, r, calls := s, out, n;
    }

    /** A single best-effort call whose errors are swallowed. */
    method SendOnce(req: Request)
      modifies this
      ensures session == Perform(oracle, old(session), req).0
    {
      session := Perform(oracle, session, req).0;
    }
  }
}

/** `S3Archiver`: buffers chunks, uploads full buffers as parts, commits at the end. */
module S3Archiver {
  import opened Bytes
  import opened Options
  import opened Transport
  import opened RemoteServices
  import opened RemoteHandle

  datatype ArchiveFault =
    | CalledBeforeOpen | CalledAfterFinalize
    | OpenFailed | UploadPartFailed | CompleteFailed | PutObjectFailed

  datatype ArchiveResult = Archived(location: string) | Refused(fault: ArchiveFault)

  /** Part numbers run 1..n without gaps, and the store holds every part under
      the tag the archiver remembers. */
  ghost predicate PartsRecorded(stored: map<nat, Part>, parts: seq<PartRef>) {
    forall i :: 0 <= i < |parts| ==>
      parts[i].number == i + 1 && i + 1 in stored && stored[i + 1].tag == parts[i].tag
  }

  ghost predicate FullParts(stored: map<nat, Part>, n: int) {
    forall i: nat :: 1 <= i <= n && i in stored ==> |stored[i].body| >= MIN_PART_SIZE
  }

  /** Conservation: what the store holds, followed by the buffer, is what was written. */
  ghost predicate Conserves(stored: map<nat, Part>, parts: seq<PartRef>, buffer: Bytes, written: Bytes) {
    && PartsRecorded(stored, parts)
    && FullParts(stored, |parts|)
    && Assembled(stored, parts) + buffer == written
  }

  lemma {:induction false} AssembledIgnoresNewPart(stored: map<nat, Part>, parts: seq<PartRef>, number: nat, part: Part)
    requires forall i :: 0 <= i < |parts| ==> parts[i].number != number
    ensures Assembled(stored[number := part], parts) == Assembled(stored, parts)
  {
    if parts != [] {
      AssembledIgnoresNewPart(stored, parts[..|parts| - 1], number, part);
    }
  }

  /** One more part, holding `data`, after full ones. */
  ghost predicate Extends(stored: map<nat, Part>, parts: seq<PartRef>,
                          stored1: map<nat, Part>, parts1: seq<PartRef>, data: Bytes) {
    && |parts1| == |parts| + 1 && parts <= parts1
    && PartsRecorded(stored1, parts1)
    && FullParts(stored1, |parts|)
    && |parts1| in stored1 && stored1[|parts1|].body == data
    && Assembled(stored1, parts1) == Assembled(stored, parts) + data
  }

  lemma RecordedAppended(stored: map<nat, Part>, parts: seq<PartRef>, part: Part)
    requires PartsRecorded(stored, parts)
    ensures var n := |parts| + 1;
      PartsRecorded(stored[n := part], parts + [PartRef(n, part.tag)])
  {
    var parts1 := parts + [PartRef(|parts| + 1, part.tag)];
    forall i | 0 <= i < |parts| ensures parts1[i] == parts[i] {}
    assert parts1[|parts|] == PartRef(|parts| + 1, part.tag);
  }

  lemma AssembledAppended(stored: map<nat, Part>, parts: seq<PartRef>, part: Part)
    requires PartsRecorded(stored, parts)
    ensures var n := |parts| + 1;
      Assembled(stored[n := part], parts + [PartRef(n, part.tag)]) == Assembled(stored, parts) + part.body
  {
    var n := |parts| + 1;
    var stored1, parts1 := stored[n := part], parts + [PartRef(n, part.tag)];
    AssembledIgnoresNewPart(stored, parts, n, part);
    assert parts1[..|parts1| - 1] == parts && parts1[|parts1| - 1].number == n;
    assert Assembled(stored1, parts1) == Assembled(stored1, parts) + stored1[n].body;
  }

  lemma PartAppended(stored: map<nat, Part>, parts: seq<PartRef>, data: Bytes, tag: nat)
    requires PartsRecorded(stored, parts) && FullParts(stored, |parts|)
    ensures var n := |parts| + 1;
      Extends(stored, parts, stored[n := Part(data, tag)], parts + [PartRef(n, tag)], data)
  {
    RecordedAppended(stored, parts, Part(data, tag));
    AssembledAppended(stored, parts, Part(data, tag));
  }

  /** Flushing a full buffer moves its content from the buffer to the store. */
  lemma FlushConserves(stored: map<nat, Part>, parts: seq<PartRef>,
                       stored1: map<nat, Part>, parts1: seq<PartRef>, data: Bytes, written: Bytes)
    requires Conserves(stored, parts, data, written) && |data| >= MIN_PART_SIZE
    requires Extends(stored, parts, stored1, parts1, data)
    ensures Conserves(stored1, parts1, [], written)
  {
  }

  /** n full parts account for at least n times the minimum. */
  lemma {:induction false} FullPartsBound(stored: map<nat, Part>, parts: seq<PartRef>)
    requires PartsRecorded(stored, parts) && FullParts(stored, |parts|)
    ensures MIN_PART_SIZE * |parts| <= |Assembled(stored, parts)|
  {
    if parts != [] {
      var init := parts[..|parts| - 1];
      forall i | 0 <= i < |init| ensures init[i] == parts[i] {}
      FullPartsBound(stored, init);
      assert parts[|parts| - 1].number == |parts|;
      assert |Assembled(stored, parts)| == |Assembled(stored, init)| + |stored[|parts|].body|;
    }
  }

  /** n <= total / 5 MiB + 1, whether or not a last small part was added. */
  lemma PartCountBound(stored: map<nat, Part>, parts: seq<PartRef>, n: nat, written: Bytes)
    requires PartsRecorded(stored, parts) && FullParts(stored, |parts|)
    requires |Assembled(stored, parts)| <= |written| && n <= |parts| + 1
    ensures n <= |written| / MIN_PART_SIZE + 1
  {
    FullPartsBound(stored, parts);
  }

  /** What the archiver completes with satisfies every rule of the store. */
  lemma ManifestIsAcceptable(stored: map<nat, Part>, parts: seq<PartRef>)
    requires parts != [] && PartsRecorded(stored, parts) && FullParts(stored, |parts| - 1)
    ensures AcceptableManifest(stored, parts)
  {
  }

  class S3Archiver {
    const remote: Remote
    const transport: TransportPolicy
    var objectKey: string
    var uploadId: Option<nat>
    var parts: seq<PartRef>
    var buffer: Option<Bytes>
    var partNumber: nat
    var finalized: bool
    ghost var written: Bytes   // everything written since open()

    ghost function World(): World
      reads remote
    { remote.session.world }

    ghost function Log(): seq<Request>
      reads remote
    { remote.session.log }

    /** Between a successful open() and finalize(), with no failed call. */
    ghost predicate Streaming()
      reads this, remote
    {
      && buffer.Some? && !finalized && |buffer.value| < MIN_PART_SIZE
      && uploadId.Some? && uploadId.value in World().uploads
      && World().uploads[uploadId.value].key == objectKey
      && partNumber == |parts|
      && Conserves(World().uploads[uploadId.value].parts, parts, buffer.value, written)
    }

    static function Abort(id: Option<nat>): Request
      requires id.Some?
    { RemoteServices.Request.AbortUpload(id.value) }

    /** The last request asks the store to drop the upload. */
    ghost predicate Abandoned()
      reads this, remote
    { uploadId.Some? && Log() != [] && Log()[|Log()| - 1] == Abort(uploadId) }

    constructor (remote: Remote, transport: TransportPolicy)
      ensures this.remote == remote && this.transport == transport
      ensures buffer.None? && uploadId.None? && !finalized
    {
      this.remote, this.transport := remote, transport;
      objectKey, uploadId, parts, buffer, partNumber, finalized := "", None, [], None, 0, false;
      written := [];
    }

    /** `key` stands for prefix, base name and UTC timestamp. */
    method Open(key: string) returns (fault: Option<ArchiveFault>)
      modifies this, remote
      ensures OnlyPrepared(old(remote.session), remote.session)
      ensures fault.None? ==> Streaming() && written == [] && buffer == Some([]) && objectKey == key
      ensures fault.Some? ==> fault.value == OpenFailed
      ensures Reliable(remote.oracle) ==> fault.None?
      ensures old(uploadId).None? && Good(remote.oracle(old(|Log()|))) ==> fault.None? && |Log()| == old(|Log()|) + 1
      // an upload left open is aborted first, and nothing else but the creation is sent
      ensures var stale := if old(uploadId.Some? && !finalized) then [Abort(old(uploadId))] else [];
        Sent(old(Log()) + stale, Log(), CreateUpload(key), transport.maxRetries)
      ensures fault.Some? ==> uploadId == old(uploadId) && buffer == Some([]) && parts == [] && !finalized
    {
      ghost var start := remote.session;
      if uploadId.Some? && !finalized {
        AbortUpload();
      }
      objectKey, finalized, parts, partNumber, buffer := key, false, [], 0, Some([]);
      written := [];
      ghost var before := remote.session;
      var id := Create(key);
      PreparedTwice(start, before, remote.session);
      if id.Some? {
        uploadId := id;
        fault := None;
      } else {
        fault := Some(OpenFailed);
      }
    }

    method Create(key: string) returns (id: Option<nat>)
      modifies remote
      ensures OnlyPrepared(old(remote.session), remote.session)
      ensures id.Some? ==> id.value in World().uploads && World().uploads[id.value] == Upload(key, map[])
      ensures Good(remote.oracle(old(|Log()|))) ==> id.Some? && |Log()| == old(|Log()|) + 1
      ensures Sent(old(Log()), Log(), CreateUpload(key), transport.maxRetries)
    {
      ghost var before := remote.session;
      var r, calls := remote.Send(CreateUpload(key), transport);
      RetriedIsSent(remote.oracle, before, CreateUpload(key), transport.maxRetries, remote.session, r, calls);
      CreateRetried(remote.oracle, before, key, transport.maxRetries, remote.session, r, calls);
      if Good(remote.oracle(|before.log|)) {
        GoodReplyIsDone(remote.oracle, before, CreateUpload(key), transport.maxRetries, remote.session, r, calls);
      }
      id := if r.Done? then Some(r.value) else None;
    }

    method WriteChunk(chunk: Bytes) returns (fault: Option<ArchiveFault>)
      requires buffer.None? || finalized || Streaming()
      modifies this, remote
      ensures OnlyPrepared(old(remote.session), remote.session) && objectKey == old(objectKey)
      ensures old(buffer).None? ==> fault == Some(CalledBeforeOpen)
      ensures old(buffer).Some? && old(finalized) ==> fault == Some(CalledAfterFinalize)
      ensures fault.None? ==> Streaming() && written == old(written) + chunk
      ensures fault.None? ==> old(parts) <= parts && |parts| <= |old(parts)| + 1
      // below the part size nothing is sent; from there on the whole buffer is
      ensures old(Streaming()) && |old(buffer.value) + chunk| < MIN_PART_SIZE ==>
        fault.None? && remote.session == old(remote.session) && buffer == Some(old(buffer.value) + chunk)
      ensures old(Streaming()) && |old(buffer.value) + chunk| >= MIN_PART_SIZE ==>
        var req := RemoteServices.Request.UploadPart(old(uploadId.value), |old(parts)| + 1, old(buffer.value) + chunk);
        && uploadId == old(uploadId) && buffer == Some([])
        && (fault.None? ==> Sent(old(Log()), Log(), req, transport.maxRetries))
        && (fault.Some? ==> fault.value == UploadPartFailed && Abandoned()
                            && Sent(old(Log()), Log()[..|Log()| - 1], req, transport.maxRetries))
      ensures old(Streaming()) && Reliable(remote.oracle) ==> fault.None?
    {
      if buffer.None? {
        return Some(CalledBeforeOpen);
      }
      if finalized {
        return Some(CalledAfterFinalize);
      }
      ghost var stored := World().uploads[uploadId.value].parts;
      buffer := Some(buffer.value + chunk);
      written := written + chunk;
      assert Conserves(stored, parts, buffer.value, written);
      if |buffer.value| >= MIN_PART_SIZE {
        var data := buffer.value;
        buffer := Some([]);
        var ok := UploadOrAbort(data);
        if !ok {
          return Some(UploadPartFailed);
        }
        FlushConserves(stored, old(parts), World().uploads[uploadId.value].parts, parts, data, written);
      }
      fault := None;
    }

    /** On success the committed object is the whole payload, also when that is
        empty. On failure the whole payload is committed if the answer to a
        commit was lost, and nothing is if none was. */
    method Finalize() returns (r: ArchiveResult)
      requires buffer.None? || finalized || Streaming()
      modifies this, remote
      ensures old(buffer).None? ==> r == Refused(CalledBeforeOpen) && remote.session == old(remote.session)
      ensures old(buffer).Some? && old(finalized) ==>
        r == Refused(CalledAfterFinalize) && remote.session == old(remote.session)
      ensures written == old(written) && objectKey == old(objectKey)
      ensures old(Streaming()) ==> buffer == Some([]) && (finalized <==> r.Archived?)
      ensures r.Archived? ==>
        && r.location == objectKey && finalized
        && World().objects == old(World()).objects[objectKey := written]
        && World().posts == old(World()).posts
        && CommitAnswered(remote.oracle, old(|Log()|), Log())
        && (forall i :: 0 <= i < |parts| ==> parts[i].number == i + 1)
        && |parts| <= |written| / 5242880 + 1
      ensures r.Refused? ==>
        CommittedIffLost(remote.oracle, old(remote.session), remote.session, objectKey, written)
      ensures r.Refused? && NoAnswerLost(remote.oracle) ==> NothingPublished(old(World()), World())
      ensures old(Streaming()) && (r == Refused(UploadPartFailed) || r == Refused(CompleteFailed)) ==> Abandoned()
      ensures old(Streaming()) ==> (CommitSent(old(|Log()|), Log()) <==> r != Refused(UploadPartFailed))
      ensures old(buffer) == Some([]) ==> r != Refused(UploadPartFailed)
      ensures old(Streaming()) && Reliable(remote.oracle) ==> r.Archived?
    {
      if buffer.None? {
        return Refused(CalledBeforeOpen);
      }
      if finalized {
        return Refused(CalledAfterFinalize);
      }
      ghost var start := remote.session;
      var flushed := Flush();
      if !flushed {
        return Refused(UploadPartFailed);
      }
      ghost var prepared := remote.session;
      var fault := Commit();
      CommitLostInContext(remote.oracle, start, prepared, remote.session, remote.session);
      if fault.Some? {
        CommittedIffLostInContext(remote.oracle, start, prepared, remote.session, remote.session, objectKey, written);
        return Refused(fault.value);
      }
      finalized := true;
      r := Archived(objectKey);
    }

    /** What commit() needs: the parts make up everything written. */
    ghost predicate Flushed()
      reads this, remote
    {
      && uploadId.Some? && uploadId.value in World().uploads
      && World().uploads[uploadId.value].key == objectKey
      && Assembled(World().uploads[uploadId.value].parts, parts) == written
      && PartsRecorded(World().uploads[uploadId.value].parts, parts)
      && FullParts(World().uploads[uploadId.value].parts, |parts| - 1)
      && |parts| <= |written| / MIN_PART_SIZE + 1
    }

    /** Uploads what is left in the buffer as the last part, if anything is. */
    method Flush() returns (ok: bool)
      requires Streaming()
      modifies this`buffer, this`partNumber, this`parts, remote
      ensures OnlyPrepared(old(remote.session), remote.session)
      ensures ok ==> Flushed()
      ensures buffer == Some([])
      ensures !ok ==> Abandoned()
      ensures old(buffer) == Some([]) ==> remote.session == old(remote.session)
      ensures old(buffer) != Some([]) ==>
        var req := RemoteServices.Request.UploadPart(uploadId.value, |old(parts)| + 1, old(buffer.value));
        Sent(old(Log()), if ok then Log() else Log()[..|Log()| - 1], req, transport.maxRetries)
      ensures old(buffer) == Some([]) || Reliable(remote.oracle) ==> ok
    {
      var remaining := buffer.value;
      buffer := Some([]);
      ghost var stored := World().uploads[uploadId.value].parts;
      ok := true;
      if remaining != [] {
        ok := UploadOrAbort(remaining);
      }
      PartCountBound(stored, old(parts), if ok then |parts| else 0, written);
    }

    /** Completes the multipart upload, or puts an empty object when no part was
        ever uploaded. */
    method Commit() returns (fault: Option<ArchiveFault>)
      requires Flushed()
      modifies remote
      ensures old(Log()) <= Log() && CommitSent(old(|Log()|), Log())
      ensures Reliable(remote.oracle) ==> fault.None?
      ensures fault.None? ==>
        && World().objects == old(World()).objects[objectKey := written] && World().posts == old(World()).posts
        && CommitAnswered(remote.oracle, old(|Log()|), Log())
      ensures fault.Some? ==> fault.value == if parts == [] then PutObjectFailed else CompleteFailed
      ensures parts == [] ==>
        Sent(old(Log()) + [Abort(uploadId)], Log(), PutObject(objectKey, []), transport.maxRetries)
      ensures parts != [] ==>
        var req := CompleteUpload(uploadId.value, parts);
        && (fault.None? ==> Sent(old(Log()), Log(), req, transport.maxRetries))
        && (fault.Some? ==> Abandoned() && Sent(old(Log()), Log()[..|Log()| - 1], req, transport.maxRetries))
      ensures fault.Some? ==>
        CommittedIffLost(remote.oracle, old(remote.session), remote.session, objectKey, written)
    {
      ghost var start := remote.session;
      if parts == [] {
        AbortUpload();
        ghost var before := remote.session;
        var done := SendCommit(PutObject(objectKey, []));
        CommitLostInContext(remote.oracle, start, before, remote.session, remote.session);
        if !done {
          CommittedIffLostInContext(remote.oracle, start, before, remote.session, remote.session, objectKey, written);
        }
        fault := if done then None else Some(PutObjectFailed);
      } else {
        ManifestIsAcceptable(World().uploads[uploadId.value].parts, parts);
        var done := SendCommit(CompleteUpload(uploadId.value, parts));
        if done {
          return None;
        }
        ghost var failed := remote.session;
        AbortUpload();
        CommitLostInContext(remote.oracle, start, start, failed, remote.session);
        CommittedIffLostInContext(remote.oracle, start, start, failed, remote.session, objectKey, written);
        fault := Some(CompleteFailed);
      }
    }

    /** The committing call, with its retries. */
    method SendCommit(req: Request) returns (done: bool)
      requires IsCommit(req) && Acceptable(World(), req)
      modifies remote
      ensures Sent(old(Log()), Log(), req, transport.maxRetries)
      ensures old(Log()) <= Log() && CommitSent(old(|Log()|), Log())
      ensures Reliable(remote.oracle) ==> done
      ensures var (key, body) := old(Committed(World(), req));
        && (done ==>
              && World().objects == old(World()).objects[key := body] && World().posts == old(World()).posts
              && CommitAnswered(remote.oracle, old(|Log()|), Log()))
        && (!done ==> CommittedIffLost(remote.oracle, old(remote.session), remote.session, key, body))
    {
      ghost var before := remote.session;
      var r, calls := remote.Send(req, transport);
      CommitRetried(remote.oracle, before, req, transport.maxRetries, remote.session, r, calls);
      RetriedIsSent(remote.oracle, before, req, transport.maxRetries, remote.session, r, calls);
      if Reliable(remote.oracle) {
        GoodReplyIsDone(remote.oracle, before, req, transport.maxRetries, remote.session, r, calls);
      }
      done := r.Done?;
    }

    /** Uploads `data` as part number n + 1, with retries under that same number. */
    method UploadPart(data: Bytes) returns (ok: bool)
      requires uploadId.Some? && uploadId.value in World().uploads
      requires partNumber == |parts|
      requires PartsRecorded(World().uploads[uploadId.value].parts, parts)
      requires FullParts(World().uploads[uploadId.value].parts, |parts|)
      modifies this`partNumber, this`parts, remote
      ensures OnlyPrepared(old(remote.session), remote.session)
      ensures Reliable(remote.oracle) ==> ok
      ensures Sent(old(Log()), Log(), RemoteServices.Request.UploadPart(uploadId.value, old(partNumber) + 1, data),
                   transport.maxRetries)
      ensures ok ==>
        && uploadId.value in World().uploads
        && World().uploads[uploadId.value].key == old(World()).uploads[uploadId.value].key
        && partNumber == |parts|
        && Extends(old(World()).uploads[uploadId.value].parts, old(parts),
                   World().uploads[uploadId.value].parts, parts, data)
    {
      partNumber := partNumber + 1;
      ghost var before := remote.session;
      ghost var stored := before.world.uploads[uploadId.value].parts;
      var req := RemoteServices.Request.UploadPart(uploadId.value, partNumber, data);
      var r, calls := remote.Send(req, transport);
      PartRetried(remote.oracle, before, uploadId.value, partNumber, data, transport.maxRetries,
                  remote.session, r, calls);
      RetriedIsSent(remote.oracle, before, req, transport.maxRetries, remote.session, r, calls);
      if Reliable(remote.oracle) {
        GoodReplyIsDone(remote.oracle, before, req, transport.maxRetries, remote.session, r, calls);
      }
      ok := r.Done?;
      if ok {
        PartAppended(stored, parts, data, r.value);
        parts := parts + [PartRef(partNumber, r.value)];
      }
    }

    /** A failed part abandons the whole upload. */
    method UploadOrAbort(data: Bytes) returns (ok: bool)
      requires uploadId.Some? && uploadId.value in World().uploads
      requires partNumber == |parts|
      requires PartsRecorded(World().uploads[uploadId.value].parts, parts)
      requires FullParts(World().uploads[uploadId.value].parts, |parts|)
      modifies this`partNumber, this`parts, remote
      ensures OnlyPrepared(old(remote.session), remote.session)
      ensures Reliable(remote.oracle) ==> ok
      ensures var req := RemoteServices.Request.UploadPart(uploadId.value, old(partNumber) + 1, data);
        && (ok ==> Sent(old(Log()), Log(), req, transport.maxRetries))
        && (!ok ==> Abandoned() && Sent(old(Log()), Log()[..|Log()| - 1], req, transport.maxRetries))
      ensures ok ==>
        && uploadId.value in World().uploads
        && World().uploads[uploadId.value].key == old(World()).uploads[uploadId.value].key
        && partNumber == |parts|
        && Extends(old(World()).uploads[uploadId.value].parts, old(parts),
                   World().uploads[uploadId.value].parts, parts, data)
    {
      ghost var start := remote.session;
      ok := UploadPart(data);
      if !ok {
        ghost var failed := remote.session;
        AbortUpload();
        PreparedTwice(start, failed, remote.session);
      }
    }

    /** Best-effort cleanup: one request, and the upload is gone when it is
        answered. Nothing it does can commit or post. */
    method AbortUpload()
      modifies remote
      ensures OnlyPrepared(old(remote.session), remote.session)
      ensures uploadId.None? ==> remote.session == old(remote.session)
      ensures uploadId.Some? ==> Log() == old(Log()) + [Abort(uploadId)]
      ensures uploadId.Some? && remote.oracle(old(|Log()|)).Answer? ==> uploadId.value !in World().uploads
    {
      if uploadId.Some? {
        remote.SendOnce(RemoteServices.Request.AbortUpload(uploadId.value));
      }
    }
  }

  /** A lost answer does leave an object behind a failure, whatever the retry
      budget: the store carries out the commit of an empty payload, and every call
      times out. */
  method LostCommit(key: string, transport: TransportPolicy) returns (r: ArchiveResult, objects: map<string, Bytes>)
    ensures r.Refused? && objects == map[key := []]
  {
    var remote := new Remote((n: nat) => if n == 0 then Answer(200) else Fault("timeout", true));
    var archiver := new S3Archiver(remote, transport);
    var fault := archiver.Open(key);
    ghost var from := |remote.session.log|;
    r := archiver.Finalize();
    assert CommitSent(from, remote.session.log);
    ghost var n :| from <= n < |remote.session.log| && IsCommit(remote.session.log[n]);
    assert AnswerLost(remote.oracle, n);
    objects := remote.session.world.objects;
  }
}
