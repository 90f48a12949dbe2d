/** `Publisher.publish`: streams the payload to the archiver and to the buffered
    client, then finalizes the archive before the delivery. */
module Publisher {
  import opened Bytes
  import opened Options
  import opened RemoteServices
  import opened RemoteHandle
  import S = S3Archiver
  import H = HttpClient

  /** The payload is a lazy iterable: producing the next chunk may raise. */
  datatype PayloadItem = Chunk(bytes: Bytes) | Raises

  datatype PublishResult =
    | Published(payload: seq<Bytes>, location: string, status: int)
    | PublishFailed

  function Joined(chunks: seq<Bytes>): Bytes {
    if chunks == [] then [] else Joined(chunks[..|chunks| - 1]) + chunks[|chunks| - 1]
  }

  /** The chunks the payload yields before it ends or raises. */
  function ChunksOf(payload: seq<PayloadItem>): seq<Bytes> {
    if payload == [] || payload[0].Raises? then [] else [payload[0].bytes] + ChunksOf(payload[1..])
  }

  predicate Complete(payload: seq<PayloadItem>) { forall item :: item in payload ==> item.Chunk? }

  lemma {:induction false} ChunksOfPrefix(payload: seq<PayloadItem>, i: nat)
    requires i <= |payload| && Complete(payload[..i])
    ensures |ChunksOf(payload)| >= i && ChunksOf(payload)[..i] == ChunksOf(payload[..i])
    ensures i < |payload| && payload[i].Chunk? ==>
      ChunksOf(payload[..i + 1]) == ChunksOf(payload[..i]) + [payload[i].bytes]
  {
    if i > 0 {
      assert payload[..i][0] == payload[0] && payload[0] in payload[..i];
      assert payload[..i][1..] == payload[1..][..i - 1];
      forall item | item in payload[1..][..i - 1] ensures item.Chunk? { assert item in payload[..i]; }
      ChunksOfPrefix(payload[1..], i - 1);
      if i < |payload| {
        assert payload[..i + 1][1..] == payload[1..][..i];
      }
    } else if i < |payload| {
      assert payload[..1][1..] == [];
    }
  }

  /** Between lo and hi POSTs were sent, every one of them with this body. */
  ghost predicate PostedBetween(w0: World, w: World, body: Bytes, lo: nat, hi: nat) {
    exists sent: nat :: lo <= sent <= hi && w.posts == w0.posts + Copies(body, sent)
  }

  class Publisher {
    const remote: Remote
    const archiver: S.S3Archiver
    const client: H.HttpDeliveryClient

    ghost predicate Valid() { archiver.remote == remote && client.remote == remote }

    constructor (archiver: S.S3Archiver, client: H.HttpDeliveryClient)
      requires archiver.remote == client.remote
      ensures Valid() && this.archiver == archiver && this.client == client
    {
      this.remote, this.archiver, this.client := archiver.remote, archiver, client;
    }

    ghost function World(): World
      reads remote
    { remote.session.world }

    ghost function Log(): seq<Request>
      reads remote
    { remote.session.log }

    /** Holds for every sequence of remote outcomes and every payload.
        `archived` tells whether archiver.finalize() returned. */
    method Publish(payload: seq<PayloadItem>, key: string) returns (r: PublishResult, ghost archived: bool)
      requires Valid()
      modifies archiver, client, remote
      // a publish that returns: one body, archived, posted and handed back
      ensures r.Published? ==>
        && archived && Complete(payload)
        && r.payload == ChunksOf(payload) && r.location == key
        && |Joined(r.payload)| <= client.maxBodyBytes
      // nothing is delivered that was not archived first
      ensures archived ==>
        && World().objects == old(World()).objects[key := Joined(ChunksOf(payload))]
        && PostedBetween(old(World()), World(), Joined(ChunksOf(payload)), 1, client.transport.maxRetries + 1)
      // once archived, the reply to the last POST decides
      ensures archived ==>
        && Log() != []
        && var last := remote.oracle(|Log()| - 1);
           (r.Published? <==> Accepts(last)) && (r.Published? ==> r.status == last.status)
      // a failure before that leaves no delivery, and the object exactly when
      // the answer to a commit was lost
      ensures !archived ==>
        && r.PublishFailed?
        && CommittedIffLost(remote.oracle, old(remote.session), remote.session, key, Joined(ChunksOf(payload)))
      ensures !archived && NoAnswerLost(remote.oracle) ==> NothingPublished(old(World()), World())
      // with a reliable remote only the payload itself can fail
      ensures Reliable(remote.oracle) ==>
        (r.Published? <==> Complete(payload) && |Joined(ChunksOf(payload))| <= client.maxBodyBytes)
    {
      var location, chunks := Archive(payload, key);
      archived := location.Some?;
      if location.None? {
        return PublishFailed, false;
      }
      var delivery, sent := client.Finalize();
      if delivery.Undelivered? {
        return PublishFailed, true;
      }
      r := Published(chunks, location.value, delivery.status);
    }

    /** Archiver and client are open and hold the same bytes. */
    ghost predicate InStep(chunks: seq<Bytes>)
      reads archiver, client, remote
    {
      && archiver.remote == remote && archiver.Streaming() && archiver.written == Joined(chunks)
      && ClientHolds(chunks)
    }

    ghost predicate ClientHolds(chunks: seq<Bytes>)
      reads client
    { client.buffer == Some(Joined(chunks)) && !client.finalized && client.WithinBody() }

    /** Everything up to the return of archiver.finalize(). */
    method Archive(payload: seq<PayloadItem>, key: string) returns (location: Option<string>, chunks: seq<Bytes>)
      requires Valid()
      modifies archiver, client, remote
      ensures location.Some? ==>
        && location.value == key && Complete(payload) && chunks == ChunksOf(payload) && ClientHolds(chunks)
        && World().objects == old(World()).objects[key := Joined(chunks)] && World().posts == old(World()).posts
      ensures location.None? ==>
        CommittedIffLost(remote.oracle, old(remote.session), remote.session, key, Joined(ChunksOf(payload)))
      ensures Reliable(remote.oracle) ==>
        (location.Some? <==> Complete(payload) && |Joined(ChunksOf(payload))| <= client.maxBodyBytes)
    {
      ghost var start := remote.session;
      var unopened := archiver.Open(key);
      if unopened.Some? {
        return None, [];
      }
      client.Open();
      ghost var begun := remote.session;
      var streamed;
      streamed, chunks := Stream(payload);
      ghost var streaming := remote.session;
      PreparedTwice(start, begun, streaming);
      if !streamed {
        return None, chunks;
      }
      var archive := archiver.Finalize();
      if archive.Refused? {
        CommittedIffLostInContext(remote.oracle, start, streaming, remote.session, remote.session, key,
                                  archiver.written);
        return None, chunks;
      }
      location := Some(archive.location);
    }

    /** The chunk loop. */
    method Stream(payload: seq<PayloadItem>) returns (ok: bool, chunks: seq<Bytes>)
      requires Valid() && InStep([])
      modifies archiver, client, remote
      ensures OnlyPrepared(old(remote.session), remote.session)
      ensures ok ==> Complete(payload) && chunks == ChunksOf(payload) && InStep(chunks)
      ensures ok ==> archiver.objectKey == old(archiver.objectKey)
      ensures Reliable(remote.oracle) ==>
        (ok <==> Complete(payload) && |Joined(ChunksOf(payload))| <= client.maxBodyBytes)
    {
      chunks := [];
      assert payload[..0] == [];
      for i := 0 to |payload|
        invariant Complete(payload[..i]) && chunks == ChunksOf(payload[..i])
        invariant InStep(chunks) && archiver.objectKey == old(archiver.objectKey)
        invariant OnlyPrepared(old(remote.session), remote.session)
      {
        ChunksOfPrefix(payload, i);
        if payload[i].Raises? {
          assert payload[i] in payload;
          return false, chunks;
        }
        ghost var before := remote.session;
        var passed := Pass(payload[i].bytes, chunks);
        PreparedTwice(old(remote.session), before, remote.session);
        chunks := chunks + [payload[i].bytes];
        assert payload[..i + 1] == payload[..i] + [payload[i]];
        if !passed {
          JoinedPrefixIsShorter(payload, i + 1);
          return false, chunks;
        }
      }
      assert payload[..|payload|] == payload;
      ok := true;
    }

    /** A chunk goes to the archiver first, then to the client. */
    method Pass(chunk: Bytes, ghost chunks: seq<Bytes>) returns (ok: bool)
      requires Valid() && InStep(chunks)
      modifies archiver, client, remote
      ensures OnlyPrepared(old(remote.session), remote.session)
      ensures ok ==> InStep(chunks + [chunk]) && archiver.objectKey == old(archiver.objectKey)
      ensures Reliable(remote.oracle) ==> (ok <==> |Joined(chunks + [chunk])| <= client.maxBodyBytes)
    {
      assert (chunks + [chunk])[..|chunks|] == chunks;
      var unarchived := archiver.WriteChunk(chunk);
      if unarchived.Some? {
        return false;
      }
      var unsent := client.SendChunk(chunk);
      ok := unsent.None?;
    }
  }

  lemma {:induction false} JoinedPrefix(chunks: seq<Bytes>, i: nat)
    requires i <= |chunks|
    ensures |Joined(chunks[..i])| <= |Joined(chunks)|
  {
    if i < |chunks| {
      JoinedPrefix(chunks[..|chunks| - 1], i);
      assert chunks[..|chunks| - 1][..i] == chunks[..i];
    } else {
      assert chunks[..i] == chunks;
    }
  }

  lemma JoinedPrefixIsShorter(payload: seq<PayloadItem>, i: nat)
    requires i <= |payload| && Complete(payload[..i])
    ensures |Joined(ChunksOf(payload[..i]))| <= |Joined(ChunksOf(payload))|
  {
    ChunksOfPrefix(payload, i);
    JoinedPrefix(ChunksOf(payload), i);
  }
}
