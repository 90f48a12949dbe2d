/** The far side of the publishing protocol: an object store with multipart
    uploads and an HTTP endpoint, driven by an arbitrary sequence of replies. */
module RemoteServices {
  import opened Bytes
  import opened Transport

  /** The object store refuses a smaller part anywhere but last. */
  const MIN_PART_SIZE: nat := 5 * 1024 * 1024

  datatype Part = Part(body: Bytes, tag: nat)
  datatype PartRef = PartRef(number: nat, tag: nat)
  datatype Upload = Upload(key: string, parts: map<nat, Part>)

  /** `posts` logs the body of every POST sent, answered or not. */
  datatype World = World(uploads: map<nat, Upload>, nextId: nat, objects: map<string, Bytes>, posts: seq<Bytes>)

  datatype Request =
    | CreateUpload(key: string)
    | UploadPart(id: nat, number: nat, body: Bytes)
    | CompleteUpload(id: nat, manifest: seq<PartRef>)
    | AbortUpload(id: nat)
    | PutObject(key: string, body: Bytes)
    | Post(body: Bytes)

  /** A call is answered, or faults with a transport category. A fault may hide
      a request that did take effect (`applied`): the answer was lost. */
  datatype Reply = Answer(status: int) | Fault(category: string, applied: bool)

  /** The world, and the requests sent so far: the n-th of them gets the n-th
      reply. Its number also serves as the entity tag of a part it uploads. */
  datatype Session = Session(world: World, log: seq<Request>)

  /** The parts named by the manifest, joined in its order. */
  function Assembled(parts: map<nat, Part>, manifest: seq<PartRef>): Bytes {
    if manifest == [] then []
    else
      var last := manifest[|manifest| - 1].number;
      Assembled(parts, manifest[..|manifest| - 1]) + if last in parts then parts[last].body else []
  }

  /** The rules of `CompleteMultipartUpload`: at least one part, ascending
      numbers, known tags, and only the last part may be small. */
  predicate AcceptableManifest(parts: map<nat, Part>, manifest: seq<PartRef>) {
    && manifest != []
    && (forall i, j :: 0 <= i < j < |manifest| ==> manifest[i].number < manifest[j].number)
    && (forall i :: 0 <= i < |manifest| ==>
          manifest[i].number in parts && parts[manifest[i].number].tag == manifest[i].tag)
    && (forall i :: 0 <= i < |manifest| - 1 ==> |parts[manifest[i].number].body| >= MIN_PART_SIZE)
  }

  predicate Acceptable(w: World, req: Request) {
    match req
    case UploadPart(id, _, _) => id in w.uploads
    case CompleteUpload(id, manifest) =>
      id in w.uploads && AcceptableManifest(w.uploads[id].parts, manifest)
    case _ => true
  }

  /** The effect of a request the service carries out. */
  function Effect(w: World, req: Request, tag: nat): World {
    match req
    case CreateUpload(key) =>
      w.(uploads := w.uploads[w.nextId := Upload(key, map[])], nextId := w.nextId + 1)
    case UploadPart(id, number, body) =>
      if id !in w.uploads then w
      else w.(uploads := w.uploads[id := w.uploads[id].(parts := w.uploads[id].parts[number := Part(body, tag)])])
    case CompleteUpload(id, manifest) =>
      if id !in w.uploads then w
      else w.(uploads := w.uploads - {id},
              objects := w.objects[w.uploads[id].key := Assembled(w.uploads[id].parts, manifest)])
    case AbortUpload(id) => w.(uploads := w.uploads - {id})
    case PutObject(key, body) => w.(objects := w.objects[key := body])
    case Post(_) => w
  }

  /** What the answer carries: the new upload id, the tag, or the HTTP status. */
  function AnswerValue(s: Session, req: Request, status: int): int {
    match req
    case CreateUpload(_) => s.world.nextId
    case Post(_) => status
    case _ => |s.log|
  }

  /** One call. A POST leaves its body in the log whatever comes back, and a 4xx
      or 5xx status is turned into a transport error; the store rejects what it
      cannot accept. */
  function Perform(oracle: nat -> Reply, s: Session, req: Request): (Session, Attempt<int>) {
    var w := if req.Post? then s.world.(posts := s.world.posts + [req.body]) else s.world;
    var log := s.log + [req];
    if !Acceptable(w, req) then (Session(w, log), Raised("transient_service_failure"))
    else
      match oracle(|s.log|)
      case Fault(category, applied) =>
        (Session(if applied then Effect(w, req, |s.log|) else w, log), Raised(category))
      case Answer(status) =>
        if req.Post? && 500 <= status < 600 then (Session(w, log), Raised("remote_5xx"))
        else if req.Post? && 400 <= status < 500 then (Session(w, log), Raised("remote_4xx"))
        else (Session(Effect(w, req, |s.log|), log), Returned(AnswerValue(s, req, status)))
  }

  /** The request as an operation for `execute_with_retry`. */
  function Calling(oracle: nat -> Reply, req: Request): Session -> (Session, Attempt<int>) {
    s => Perform(oracle, s, req)
  }

  // ---------------------------------------------------------------------
  // What a retried request leaves behind
  // ---------------------------------------------------------------------

  function Repeated(req: Request, n: nat): seq<Request> { seq(n, i => req) }

  /** The i-th state of a retried request has seen it i times. */
  lemma {:induction false} LogOfAttempts(oracle: nat -> Reply, s0: Session, req: Request, i: nat)
    ensures StateBefore(Calling(oracle, req), s0, i).log == s0.log + Repeated(req, i)
  {
    if i > 0 {
      LogOfAttempts(oracle, s0, req, i - 1);
      assert Repeated(req, i) == Repeated(req, i - 1) + [req];
    }
  }

  /** Since log0 this request was sent, once and again within the retry budget. */
  ghost predicate Sent(log0: seq<Request>, log: seq<Request>, req: Request, maxRetries: nat) {
    exists calls: nat :: 1 <= calls <= maxRetries + 1 && log == log0 + Repeated(req, calls)
  }

  lemma RetriedIsSent(oracle: nat -> Reply, s0: Session, req: Request, maxRetries: nat,
                      s: Session, r: Outcome<int>, calls: nat)
    requires RetriedTo(Calling(oracle, req), s0, maxRetries, s, r, calls)
    ensures Sent(s0.log, s.log, req, maxRetries)
  {
    LogOfAttempts(oracle, s0, req, calls);
  }

  /** Only multipart bookkeeping differs: nothing committed, nothing posted. */
  ghost predicate NothingPublished(w0: World, w: World) { w.objects == w0.objects && w.posts == w0.posts }

  predicate IsCommit(req: Request) { req.CompleteUpload? || req.PutObject? }

  /** Between the two states nothing was published, nor any commit requested. */
  ghost predicate OnlyPrepared(s0: Session, s: Session) {
    && NothingPublished(s0.world, s.world)
    && s0.log <= s.log && forall n :: |s0.log| <= n < |s.log| ==> !IsCommit(s.log[n])
  }

  /** The n-th request was carried out, but its answer was lost. */
  predicate AnswerLost(oracle: nat -> Reply, n: nat) { oracle(n).Fault? && oracle(n).applied }

  /** Since the log had this length, a commit was requested and its answer lost. */
  ghost predicate CommitLost(oracle: nat -> Reply, from: nat, log: seq<Request>) {
    exists n :: from <= n < |log| && IsCommit(log[n]) && AnswerLost(oracle, n)
  }

  /** A commit was requested and answered. */
  ghost predicate CommitAnswered(oracle: nat -> Reply, from: nat, log: seq<Request>) {
    exists n :: from <= n < |log| && IsCommit(log[n]) && oracle(n).Answer?
  }

  ghost predicate CommitSent(from: nat, log: seq<Request>) {
    exists n :: from <= n < |log| && IsCommit(log[n])
  }

  /** What a failed publication leaves: this object exactly when the answer to a
      commit was lost, and otherwise nothing. */
  ghost predicate CommittedIffLost(oracle: nat -> Reply, s0: Session, s: Session, key: string, body: Bytes) {
    && s0.log <= s.log && s.world.posts == s0.world.posts
    && s.world.objects
      == if CommitLost(oracle, |s0.log|, s.log) then s0.world.objects[key := body] else s0.world.objects
  }

  ghost predicate NoAnswerLost(oracle: nat -> Reply) { forall n :: !AnswerLost(oracle, n) }

  lemma PreparedTwice(s0: Session, s1: Session, s2: Session)
    requires OnlyPrepared(s0, s1) && OnlyPrepared(s1, s2)
    ensures OnlyPrepared(s0, s2)
  {
  }

  /** Preparing before a failed commit, and cleaning up after it, change nothing
      about what it left. */
  lemma CommittedIffLostInContext(oracle: nat -> Reply, s0: Session, s1: Session, s2: Session, s3: Session,
                                  key: string, body: Bytes)
    requires OnlyPrepared(s0, s1) && CommittedIffLost(oracle, s1, s2, key, body) && OnlyPrepared(s2, s3)
    ensures CommittedIffLost(oracle, s0, s3, key, body)
  {
  }

  lemma CommitLostInContext(oracle: nat -> Reply, s0: Session, s1: Session, s2: Session, s3: Session)
    requires OnlyPrepared(s0, s1) && s1.log <= s2.log && OnlyPrepared(s2, s3)
    ensures CommitLost(oracle, |s1.log|, s2.log) <==> CommitLost(oracle, |s0.log|, s3.log)
    ensures CommitAnswered(oracle, |s1.log|, s2.log) <==> CommitAnswered(oracle, |s0.log|, s3.log)
    ensures CommitSent(|s1.log|, s2.log) <==> CommitSent(|s0.log|, s3.log)
  {
  }

  lemma {:induction false} CreateAttempts(oracle: nat -> Reply, s0: Session, key: string, i: nat)
    ensures NothingPublished(s0.world, StateBefore(Calling(oracle, CreateUpload(key)), s0, i).world)
  {
    if i > 0 { CreateAttempts(oracle, s0, key, i - 1); }
  }

  /** A successful creation, however often it was retried, yields an empty
      upload under the requested key. */
  lemma CreateRetried(oracle: nat -> Reply, s0: Session, key: string, maxRetries: nat,
                      s: Session, r: Outcome<int>, calls: nat)
    requires RetriedTo(Calling(oracle, CreateUpload(key)), s0, maxRetries, s, r, calls)
    ensures OnlyPrepared(s0, s)
    ensures r.Done? ==> r.value >= 0 && r.value in s.world.uploads && s.world.uploads[r.value] == Upload(key, map[])
  {
    CreateAttempts(oracle, s0, key, calls);
    LogOfAttempts(oracle, s0, CreateUpload(key), calls);
  }

  /** Re-sending a part overwrites it: repeated effects equal the last one. */
  lemma {:induction false} PartAttempts(oracle: nat -> Reply, s0: Session, id: nat, number: nat, body: Bytes, i: nat)
    returns (tag: nat)
    requires id in s0.world.uploads
    ensures var w := StateBefore(Calling(oracle, UploadPart(id, number, body)), s0, i).world;
      w == s0.world || w == Effect(s0.world, UploadPart(id, number, body), tag)
  {
    tag := 0;
    if i > 0 {
      var before := PartAttempts(oracle, s0, id, number, body, i - 1);
      var req := UploadPart(id, number, body);
      var s := StateBefore(Calling(oracle, req), s0, i - 1);
      tag := if Calling(oracle, req)(s).0.world == s.world then before else |s.log|;
      EffectOfPartTwice(s0.world, id, number, body, before, |s.log|);
    }
  }

  lemma EffectOfPartTwice(w: World, id: nat, number: nat, body: Bytes, t1: nat, t2: nat)
    requires id in w.uploads
    ensures var req := UploadPart(id, number, body);
      Effect(Effect(w, req, t1), req, t2) == Effect(w, req, t2)
  {
    var parts := w.uploads[id].parts;
    var once: map<nat, Part> := parts[number := Part(body, t1)];
    assert once[number := Part(body, t2)] == parts[number := Part(body, t2)];
  }

  lemma PartRetried(oracle: nat -> Reply, s0: Session, id: nat, number: nat, body: Bytes, maxRetries: nat,
                    s: Session, r: Outcome<int>, calls: nat)
    requires RetriedTo(Calling(oracle, UploadPart(id, number, body)), s0, maxRetries, s, r, calls)
    requires id in s0.world.uploads
    ensures OnlyPrepared(s0, s)
    ensures r.Done? ==> r.value >= 0 && s.world == Effect(s0.world, UploadPart(id, number, body), r.value)
  {
    var req := UploadPart(id, number, body);
    var tag := PartAttempts(oracle, s0, id, number, body, calls - 1);
    var last := StateBefore(Calling(oracle, req), s0, calls - 1);
    EffectOfPartTwice(s0.world, id, number, body, tag, |last.log|);
    LogOfAttempts(oracle, s0, req, calls);
  }

  /** The object an acceptable commit creates. */
  ghost function Committed(w: World, req: Request): (string, Bytes)
    requires IsCommit(req) && Acceptable(w, req)
  {
    match req
    case CompleteUpload(id, manifest) => (w.uploads[id].key, Assembled(w.uploads[id].parts, manifest))
    case PutObject(key, body) => (key, body)
  }

  /** A commit requested since s0, failing every time, was carried out exactly
      when one of the calls lost its answer. */
  ghost predicate FailedCommit(oracle: nat -> Reply, s0: Session, s: Session, req: Request)
    requires IsCommit(req) && Acceptable(s0.world, req)
  {
    && CommittedIffLost(oracle, s0, s, Committed(s0.world, req).0, Committed(s0.world, req).1)
    && (!CommitLost(oracle, |s0.log|, s.log) ==> s.world == s0.world)
    && (CommitLost(oracle, |s0.log|, s.log) && req.CompleteUpload? ==> req.id !in s.world.uploads)
  }

  lemma {:induction false} CommitAttempts(oracle: nat -> Reply, s0: Session, req: Request, i: nat)
    requires IsCommit(req) && Acceptable(s0.world, req)
    requires forall j :: 0 <= j < i ==> AttemptAt(Calling(oracle, req), s0, j).Raised?
    ensures FailedCommit(oracle, s0, StateBefore(Calling(oracle, req), s0, i), req)
  {
    if i > 0 {
      var before := StateBefore(Calling(oracle, req), s0, i - 1);
      CommitAttempts(oracle, s0, req, i - 1);
      assert AttemptAt(Calling(oracle, req), s0, i - 1).Raised?;
      CommitFailsAgain(oracle, s0, before, req);
    }
  }

  lemma CommitFailsAgain(oracle: nat -> Reply, s0: Session, s: Session, req: Request)
    requires IsCommit(req) && Acceptable(s0.world, req)
    requires FailedCommit(oracle, s0, s, req) && Perform(oracle, s, req).1.Raised?
    ensures FailedCommit(oracle, s0, Perform(oracle, s, req).0, req)
  {
    OneMoreCommit(oracle, |s0.log|, s.log, req);
  }

  lemma OneMoreCommit(oracle: nat -> Reply, from: nat, log: seq<Request>, req: Request)
    requires from <= |log| && IsCommit(req)
    ensures CommitLost(oracle, from, log + [req]) <==> CommitLost(oracle, from, log) || AnswerLost(oracle, |log|)
  {
  }

  /** A commit that returns after failures commits the same object. */
  lemma CommitReturns(oracle: nat -> Reply, s0: Session, s: Session, req: Request)
    requires IsCommit(req) && Acceptable(s0.world, req)
    requires FailedCommit(oracle, s0, s, req) && Perform(oracle, s, req).1.Returned?
    ensures oracle(|s.log|).Answer?
    ensures var w := Perform(oracle, s, req).0.world;
      && w.posts == s0.world.posts
      && w.objects == s0.world.objects[Committed(s0.world, req).0 := Committed(s0.world, req).1]
  {
  }

  /** The state before the last call, and what that call did. */
  lemma BeforeLastCommit(oracle: nat -> Reply, s0: Session, req: Request, maxRetries: nat,
                         s: Session, r: Outcome<int>, calls: nat) returns (last: Session)
    requires RetriedTo(Calling(oracle, req), s0, maxRetries, s, r, calls)
    requires IsCommit(req) && Acceptable(s0.world, req)
    ensures s0.log <= last.log && FailedCommit(oracle, s0, last, req)
    ensures s == Perform(oracle, last, req).0
    ensures if r.Done? then Perform(oracle, last, req).1.Returned? else Perform(oracle, last, req).1.Raised?
  {
    CommitAttempts(oracle, s0, req, calls - 1);
    last := StateBefore(Calling(oracle, req), s0, calls - 1);
  }

  /** Whatever comes of it, a retried commit is logged; it returns with its object
      committed and an answer received, or fails with the object committed
      exactly when an answer was lost. */
  lemma CommitRetried(oracle: nat -> Reply, s0: Session, req: Request, maxRetries: nat,
                      s: Session, r: Outcome<int>, calls: nat)
    requires RetriedTo(Calling(oracle, req), s0, maxRetries, s, r, calls)
    requires IsCommit(req) && Acceptable(s0.world, req)
    ensures s0.log <= s.log && CommitSent(|s0.log|, s.log)
    ensures r.Done? ==>
      && s.world.posts == s0.world.posts
      && s.world.objects == s0.world.objects[Committed(s0.world, req).0 := Committed(s0.world, req).1]
      && CommitAnswered(oracle, |s0.log|, s.log)
    ensures !r.Done? ==>
      CommittedIffLost(oracle, s0, s, Committed(s0.world, req).0, Committed(s0.world, req).1)
  {
    var last := BeforeLastCommit(oracle, s0, req, maxRetries, s, r, calls);
    assert s.log == last.log + [req] && s.log[|last.log|] == req;
    if r.Done? {
      CommitReturns(oracle, s0, last, req);
    } else {
      CommitFailsAgain(oracle, s0, last, req);
    }
  }

  lemma {:induction false} RefusedAttempts(oracle: nat -> Reply, s0: Session, req: Request, i: nat)
    requires !Acceptable(s0.world, req)
    ensures StateBefore(Calling(oracle, req), s0, i).world == s0.world
  {
    if i > 0 { RefusedAttempts(oracle, s0, req, i - 1); }
  }

  /** What the service cannot accept it refuses every time, whatever is lost. */
  lemma UnacceptableIsRefused(oracle: nat -> Reply, s0: Session, req: Request, maxRetries: nat,
                              s: Session, r: Outcome<int>, calls: nat)
    requires RetriedTo(Calling(oracle, req), s0, maxRetries, s, r, calls)
    requires !Acceptable(s0.world, req)
    ensures s.world == s0.world && r.Exhausted? && calls == maxRetries + 1
  {
    RefusedAttempts(oracle, s0, req, calls);
    RefusedAttempts(oracle, s0, req, calls - 1);
  }

  function Copies(body: Bytes, n: nat): seq<Bytes> { seq(n, i => body) }

  /** Every attempt of a retried POST sends the same body. */
  lemma {:induction false} PostAttempts(oracle: nat -> Reply, s0: Session, body: Bytes, i: nat)
    ensures StateBefore(Calling(oracle, Post(body)), s0, i).world
      == s0.world.(posts := s0.world.posts + Copies(body, i))
  {
    if i > 0 {
      PostAttempts(oracle, s0, body, i - 1);
      assert Copies(body, i) == Copies(body, i - 1) + [body];
    }
  }

  /** The reply lets a POST succeed. */
  predicate Accepts(reply: Reply) { reply.Answer? && !(400 <= reply.status < 600) }

  /** A retried POST succeeds exactly when its last reply is a good one, and then
      hands its status on. */
  lemma PostRetried(oracle: nat -> Reply, s0: Session, body: Bytes, maxRetries: nat,
                    s: Session, r: Outcome<int>, calls: nat)
    requires RetriedTo(Calling(oracle, Post(body)), s0, maxRetries, s, r, calls)
    ensures s.world == s0.world.(posts := s0.world.posts + Copies(body, calls))
    ensures s.log == s0.log + Repeated(Post(body), calls)
    ensures r.Done? <==> Accepts(oracle(|s.log| - 1))
    ensures r.Done? ==> r.value == oracle(|s.log| - 1).status
  {
    PostAttempts(oracle, s0, body, calls);
    LogOfAttempts(oracle, s0, Post(body), calls);
    LogOfAttempts(oracle, s0, Post(body), calls - 1);
  }

  /** A reply that makes a POST be sent again: a server error, or a fault worth a
      retry. A client error does not. */
  ghost predicate PostsAgain(reply: Reply) {
    match reply
    case Answer(status) => 500 <= status < 600
    case Fault(category, _) =>
      category in {"timeout", "network", "transient_service_failure", "remote_5xx", "remote_429"}
  }

  /** The reply to the i-th call from a session on. */
  ghost function ReplyTo(oracle: nat -> Reply, s: Session, i: nat): Reply { oracle(|s.log| + i) }

  lemma PostAttempt(oracle: nat -> Reply, s0: Session, body: Bytes, i: nat)
    ensures var reply, attempt := ReplyTo(oracle, s0, i), AttemptAt(Calling(oracle, Post(body)), s0, i);
      && (RetryableFailure(attempt) <==> PostsAgain(reply))
      && (reply.Answer? && 400 <= reply.status < 500 ==> attempt == Raised("remote_4xx"))
      && (reply.Fault? ==> attempt == Raised(reply.category))
  {
    LogOfAttempts(oracle, s0, Post(body), i);
    var s := StateBefore(Calling(oracle, Post(body)), s0, i);
    assert |s.log| == |s0.log| + i;
  }

  /** A retried POST is sent until a reply that does not make it be sent again, and
      no further than the budget goes; and a client error is reported as one. */
  lemma PostStops(oracle: nat -> Reply, s0: Session, body: Bytes, maxRetries: nat,
                  s: Session, r: Outcome<int>, calls: nat)
    requires RetriedTo(Calling(oracle, Post(body)), s0, maxRetries, s, r, calls)
    ensures forall i: nat :: i < calls - 1 ==> PostsAgain(ReplyTo(oracle, s0, i))
    ensures var last := ReplyTo(oracle, s0, calls - 1);
      && (r.Exhausted? <==> PostsAgain(last))
      && (r.Exhausted? ==> calls == maxRetries + 1)
      && (last.Answer? && 400 <= last.status < 500 ==> r == Failed("remote_4xx"))
      && (last.Fault? && !PostsAgain(last) ==> r == Failed(last.category))
  {
    forall i: nat | i < calls - 1 ensures PostsAgain(ReplyTo(oracle, s0, i)) {
      PostAttempt(oracle, s0, body, i);
    }
    PostAttempt(oracle, s0, body, calls - 1);
  }

  /** Answered, and with a status that is no error. */
  predicate Good(reply: Reply) { reply.Answer? && reply.status < 400 }

  ghost predicate Reliable(oracle: nat -> Reply) { forall n :: Good(oracle(n)) }

  /** A request the service can accept goes through at once on a good reply. */
  lemma GoodReplyIsDone(oracle: nat -> Reply, s0: Session, req: Request, maxRetries: nat,
                        s: Session, r: Outcome<int>, calls: nat)
    requires RetriedTo(Calling(oracle, req), s0, maxRetries, s, r, calls)
    requires Good(oracle(|s0.log|)) && Acceptable(s0.world, req)
    ensures r.Done? && calls == 1 && s.log == s0.log + [req]
  {
    var first := AttemptAt(Calling(oracle, req), s0, 0);
    assert !RetryableFailure(first);
    LogOfAttempts(oracle, s0, req, 1);
  }
}
