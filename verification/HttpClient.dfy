/** `HttpDeliveryClient`: buffers the payload up to a limit and POSTs it once,
    with retries. */
module HttpClient {
  import opened Bytes
  import opened Options
  import opened Transport
  import opened RemoteServices
  import opened RemoteHandle

  datatype DeliveryFault = CalledBeforeOpen | CalledAfterFinalize | BodyTooLarge | PostFailed(category: string)

  datatype DeliveryResult = Delivered(status: int) | Undelivered(fault: DeliveryFault)

  class HttpDeliveryClient {
    const remote: Remote
    const transport: TransportPolicy
    const maxBodyBytes: nat
    var buffer: Option<Bytes>
    var finalized: bool

    constructor (remote: Remote, transport: TransportPolicy, maxBodyBytes: nat)
      ensures this.remote == remote && this.transport == transport && this.maxBodyBytes == maxBodyBytes
      ensures buffer.None? && !finalized
    {
      this.remote, this.transport, this.maxBodyBytes := remote, transport, maxBodyBytes;
      buffer, finalized := None, false;
    }

    /** The limit holds at all times, not just when the body is sent. */
    ghost predicate WithinBody()
      reads this
    { buffer.Some? ==> |buffer.value| <= maxBodyBytes }

    method Open()
      modifies this
      ensures buffer == Some([]) && !finalized && WithinBody()
    {
      buffer, finalized := Some([]), false;
    }

    method SendChunk(chunk: Bytes) returns (fault: Option<DeliveryFault>)
      requires WithinBody()
      modifies this
      ensures WithinBody() && finalized == old(finalized)
      ensures fault ==
        if old(finalized) then Some(CalledAfterFinalize)
        else if old(buffer).None? then Some(CalledBeforeOpen)
        else if |old(buffer).value + chunk| > maxBodyBytes then Some(BodyTooLarge)
        else None
      ensures buffer == if fault.None? then Some(old(buffer).value + chunk) else old(buffer)
    {
      if finalized {
        return Some(CalledAfterFinalize);
      }
      if buffer.None? {
        return Some(CalledBeforeOpen);
      }
      if |buffer.value| + |chunk| > maxBodyBytes {
        return Some(BodyTooLarge);
      }
      buffer := Some(buffer.value + chunk);
      fault := None;
    }

    /** Only POSTs are sent, all with the buffered body, at most maxRetries + 1
        of them, and another one only after a server error or a passing fault; the
        delivery succeeds exactly when the last one is answered with a status that
        is neither 4xx nor 5xx, and reports that status. */
    method Finalize() returns (r: DeliveryResult, ghost sent: nat)
      requires WithinBody()
      modifies this, remote
      ensures old(finalized) ==> r == Undelivered(CalledAfterFinalize) && sent == 0
      ensures !old(finalized) && old(buffer).None? ==> r == Undelivered(CalledBeforeOpen) && sent == 0
      ensures var body := if old(buffer).Some? then old(buffer).value else [];
        && remote.session.world
          == old(remote.session.world).(posts := old(remote.session.world.posts) + Copies(body, sent))
        && remote.session.log == old(remote.session.log) + Repeated(Post(body), sent)
      ensures !old(finalized) && old(buffer).Some? ==>
        && 1 <= sent <= transport.maxRetries + 1
        && var last := remote.oracle(|remote.session.log| - 1);
           (r.Delivered? <==> Accepts(last)) && (r.Delivered? ==> r.status == last.status)
      ensures !old(finalized) && old(buffer).Some? ==>
        var last := ReplyTo(remote.oracle, old(remote.session), sent - 1);
        && (forall i: nat :: i < sent - 1 ==> PostsAgain(ReplyTo(remote.oracle, old(remote.session), i)))
        && (PostsAgain(last) ==> sent == transport.maxRetries + 1 && r == Undelivered(PostFailed("retry_exhausted")))
        && (last.Answer? && 400 <= last.status < 500 ==> r == Undelivered(PostFailed("remote_4xx")))
        && (last.Fault? && !PostsAgain(last) ==> r == Undelivered(PostFailed(last.category)))
      ensures finalized == (old(finalized) || r.Delivered?)
      ensures buffer == if old(finalized) then old(buffer) else None
      ensures !old(finalized) && old(buffer).Some? && Reliable(remote.oracle) ==> r.Delivered? && sent == 1
    {
      sent := 0;
      ghost var before := remote.session;
      assert forall body :: Copies(body, 0) == [] && Repeated(Post(body), 0) == [];
      if finalized {
        return Undelivered(CalledAfterFinalize), 0;
      }
      if buffer.None? {
        return Undelivered(CalledBeforeOpen), 0;
      }
      var body := buffer.value;
      buffer := None;
      hide RetriedTo, Perform;
      var out, calls := remote.Send(Post(body), transport);
      sent := calls;
      PostRetried(remote.oracle, before, body, transport.maxRetries, remote.session, out, calls);
      PostStops(remote.oracle, before, body, transport.maxRetries, remote.session, out, calls);
      if Reliable(remote.oracle) {
        GoodReplyIsDone(remote.oracle, before, Post(body), transport.maxRetries, remote.session, out, calls);
      }
      match out {
        case Done(status) =>
          finalized := true;
          r := Delivered(status);
        case Failed(category) => r := Undelivered(PostFailed(category));
        case Exhausted => r := Undelivered(PostFailed("retry_exhausted"));
      }
    }
  }
}
