/** The handler that ties the parts together: validation, the look-aside authorization cache, the
    permission check, the worker pool, and the Batch counters. */
module Handler {
  import opened Wrappers
  import opened GoText
  import opened Forge
  import opened Protocol
  import opened WorkerPool
  import AuthCache
  import CacheKey
  import Lookaside
  import Lru
  import S3Store

  // ----- a Batch's objects through the pool

  /** Some answers of the store lead processObject to this outcome. */
  ghost predicate CanAnswer(ctx: Context, o: RequestObject, outcome: Outcome) {
    exists head, presigned :: outcome == ProcessObject(ctx, o, head, presigned)
  }

  ghost function BatchJob(ctx: Context, option: int, objects: seq<RequestObject>): Job<RequestObject, Outcome> {
    Job(Concurrency(option), objects, (o: RequestObject, outcome: Outcome) => CanAnswer(ctx, o, outcome))
  }

  function Labels(operation: string, outcomes: seq<Outcome>): seq<(string, string)> {
    seq(|outcomes|, i requires 0 <= i < |outcomes| => (operation, outcomes[i].result))
  }

  /** Each tag counts the outcomes it stands for. */
  lemma {:induction false} LabelCounted(operation: string, outcomes: seq<Outcome>, tag: (string, string))
    ensures multiset(Labels(operation, outcomes))[tag]
         == |set i: nat | i < |outcomes| && (operation, outcomes[i].result) == tag|
    decreases |outcomes|
  {
    if outcomes != [] {
      var n, front := |outcomes| - 1, outcomes[..|outcomes| - 1];
      LabelCounted(operation, front, tag);
      assert Labels(operation, outcomes) == Labels(operation, front) + [(operation, outcomes[n].result)];
      var earlier := set i: nat | i < n && (operation, front[i].result) == tag;
      assert (set i: nat | i < |outcomes| && (operation, outcomes[i].result) == tag)
          == earlier + if (operation, outcomes[n].result) == tag then {n} else {};
    }
  }

  /** Conservation over every interleaving of the pool and every behaviour of the store: a Batch
      returns as many objects as it was sent, in order, each echoed and in exactly one shape; the
      counters rise by one per object, under the labels of the shapes returned. */
  lemma BatchConserves(ctx: Context, option: int, objects: seq<RequestObject>, steps: seq<Step<Outcome>>,
                       s: Pool<Outcome>)
    requires Leads(BatchJob(ctx, option, objects), Initial(BatchJob(ctx, option, objects)), steps, s)
    requires s.dispatcher.Done?
    ensures |s.output| == |objects|
    ensures forall i :: 0 <= i < |objects| ==>
              && s.output[i].Some?
              && s.output[i].value.response.oid == objects[i].oid
              && s.output[i].value.response.size == objects[i].size
              && s.output[i].value.result in RESULTS
              && forall result <- RESULTS ::
                   ShapeOf(ctx.operation, result, s.output[i].value.response) <==> result == s.output[i].value.result
    ensures var raised := multiset(Labels(ctx.operation, Results(s.writes)));
            && |raised| == |objects|
            && forall tag ::
                 raised[tag] == |set i: nat | i < |objects| && (ctx.operation, s.output[i].value.result) == tag|
  {
    var job := BatchJob(ctx, option, objects);
    ReturnsAnswers(job, steps, s);
    forall i | 0 <= i < |objects|
      ensures var out := s.output[i].value;
              && out.response.oid == objects[i].oid && out.response.size == objects[i].size && out.result in RESULTS
              && forall result <- RESULTS :: ShapeOf(ctx.operation, result, out.response) <==> result == out.result
    {
      assert job.answers(objects[i], s.output[i].value);
      var head, presigned :| s.output[i].value == ProcessObject(ctx, objects[i], head, presigned);
      OneShapeEach(ctx, objects[i], head, presigned);
    }
    var labelled := seq(|s.writes|, k requires 0 <= k < |s.writes| =>
                          Slot(s.writes[k].index, (ctx.operation, s.writes[k].result.result)));
    assert Results(labelled) == Labels(ctx.operation, Results(s.writes));
    forall i | 0 <= i < |objects| ensures Wrote(labelled, i) {
      assert Wrote(s.writes, i);
      var k :| 0 <= k < |s.writes| && s.writes[k].index == i;
      assert labelled[k].index == i;
    }
    WritesFillSlots(labelled, Labels(ctx.operation, Values(s.output)));
    forall tag
      ensures multiset(Labels(ctx.operation, Values(s.output)))[tag]
           == |set i: nat | i < |objects| && (ctx.operation, s.output[i].value.result) == tag|
    {
      LabelCounted(ctx.operation, Values(s.output), tag);
      assert (set i: nat | i < |objects| && (ctx.operation, s.output[i].value.result) == tag)
          == set i: nat | i < |objects| && (ctx.operation, Values(s.output)[i].result) == tag;
    }
  }

  /** The pool for a Batch never hangs, whatever option was given. */
  lemma BatchFinishes(ctx: Context, option: int, objects: seq<RequestObject>, steps: seq<Step<Outcome>>,
                      s: Pool<Outcome>)
    requires Leads(BatchJob(ctx, option, objects), Initial(BatchJob(ctx, option, objects)), steps, s)
    ensures s.dispatcher.Done? || exists step :: Enabled(BatchJob(ctx, option, objects), s, step)
    ensures |steps| <= 2 * |objects| + 2 * Max(1, |objects|) + 3
    ensures option > 0 ==> |steps| <= 2 * |objects| + 2 * option + 3
    ensures option <= 0 ==> |steps| <= 2 * |objects| + 35
  {
    var job := BatchJob(ctx, option, objects);
    InitialInv(job);
    RunKeepsInv(job, Initial(job), steps, s);
    EveryRunEnds(job, steps, s);
    forall i | 0 <= i < |objects| ensures job.Ends(objects[i]) {
      var head, presigned := Failure(S3Store.NotFound), Failure(S3Store.Unavailable);
      assert job.answers(objects[i], ProcessObject(ctx, objects[i], head, presigned));
    }
    if !s.dispatcher.Done? {
      var step := Progress(job, s);
    }
  }

  // ----- authorize

  /** One undisturbed look-aside: a hit answers from the cache, a miss asks the authorizer, and only a
      successful answer is stored. */
  function StoreAnswer(c: Lru.Recency<Authorization>, capacity: nat, ttl: int, key: string,
                       answer: Result<Authorization, Error>, putNow: int): Lru.Recency<Authorization>
  {
    match answer
    case Failure(_) => c
    case Success(value) => Lru.AfterPut(c, capacity, Lru.Entry(key, value, putNow + ttl))
  }

  function LookAside(c: Lru.Recency<Authorization>, capacity: nat, ttl: int, key: string,
                     answer: Result<Authorization, Error>, getNow: int, putNow: int)
      : (Result<Authorization, Error>, Lru.Recency<Authorization>)
  {
    var looked := Lru.AfterGet(c, key, getNow);
    match Lru.Answer(c, key, getNow)
    case Some(value) => (Success(value), looked)
    case None => (answer, StoreAnswer(looked, capacity, ttl, key, answer, putNow))
  }

  /** The steps of one call that no other call interrupts. */
  function UndisturbedSteps(hit: bool, c: nat, r: Request, answer: Result<Authorization, Error>, getNow: int,
                            replyNow: int, putNow: int): seq<Lookaside.Step>
  {
    [Lookaside.Arrive(r), Lookaside.Lookup(c, getNow)]
    + if hit then []
      else [Lookaside.Reply(c, answer, replyNow)] + if answer.Success? then [Lookaside.Store(c, putNow)] else []
  }

  function PhaseOf(result: Result<Authorization, Error>): Lookaside.Phase {
    match result
    case Success(value) => Lookaside.Returned(value)
    case Failure(error) => Lookaside.Failed(error)
  }

  /** Among concurrent calls, one that is left alone returns what this look-aside returns and leaves the
      cache as it does. */
  lemma UndisturbedRun(cfg: Lookaside.Settings, s: Lookaside.System, r: Request, answer: Result<Authorization, Error>,
                       getNow: int, replyNow: int, putNow: int) returns (t: Lookaside.System)
    ensures var hit := Lru.Answer(s.cache, cfg.Key(r), getNow).Some?;
            Lookaside.Leads(cfg, s, UndisturbedSteps(hit, |s.calls|, r, answer, getNow, replyNow, putNow), t)
    ensures var (result, cache) := LookAside(s.cache, cfg.capacity, cfg.ttl, cfg.Key(r), answer, getNow, putNow);
            t.cache == cache && t.calls == s.calls + [Lookaside.Call(r, PhaseOf(result))]
  {
    hide Lru.Answer, Lru.AfterGet, Lru.AfterPut, Lookaside.Settings.Key;
    var c, arrive, look := |s.calls|, Lookaside.Arrive(r), Lookaside.Lookup(|s.calls|, getNow);
    var arrived := Lookaside.Apply(cfg, s, arrive);
    t := Lookaside.Apply(cfg, arrived, look);
    var steps := [] + [arrive] + [look];
    assert Lookaside.Leads(cfg, s, [], s);
    Lookaside.Extend(cfg, s, [], s, arrive);
    Lookaside.Extend(cfg, s, [] + [arrive], arrived, look);
    if t.calls[c].phase.Asking? {
      var reply := Lookaside.Reply(c, answer, replyNow);
      Lookaside.Extend(cfg, s, steps, t, reply);
      steps, t := steps + [reply], Lookaside.Apply(cfg, t, reply);
      if answer.Success? {
        var store := Lookaside.Store(c, putNow);
        Lookaside.Extend(cfg, s, steps, t, store);
        steps, t := steps + [store], Lookaside.Apply(cfg, t, store);
      }
    }
    assert steps == UndisturbedSteps(Lru.Answer(s.cache, cfg.Key(r), getNow).Some?, c, r, answer, getNow, replyNow,
                                     putNow);
  }

  /** Within the lifetime of an answer, asking again gets the same answer without the authorizer. */
  lemma AnswerIsRemembered(c: Lru.Recency<Authorization>, capacity: nat, ttl: int, key: string,
                           answer: Result<Authorization, Error>, getNow: int, putNow: int,
                           other: Result<Authorization, Error>, getAgain: int, putAgain: int)
    requires Lru.Bounded(c, capacity) && capacity > 0 && answer.Success? && Lru.Answer(c, key, getNow) == None
    requires getAgain < putNow + ttl
    ensures var (_, c') := LookAside(c, capacity, ttl, key, answer, getNow, putNow);
            LookAside(c', capacity, ttl, key, other, getAgain, putAgain).0 == answer
  {
    var looked := Lru.AfterGet(c, key, getNow);
    Lru.ApplyKeepsBounded(c, capacity, ttl, Lru.Get(key, getNow));
    Lru.ApplyKeepsBounded(looked, capacity, ttl, Lru.Put(key, answer.value, putNow));
    Lru.FindUnique(Lru.AfterPut(looked, capacity, Lru.Entry(key, answer.value, putNow + ttl)), 0);
  }

  /** An error leaves nothing new in the cache: the next call asks again. */
  lemma ErrorsAreNotRemembered(c: Lru.Recency<Authorization>, capacity: nat, ttl: int, key: string, e: Error,
                               getNow: int, putNow: int, other: Result<Authorization, Error>, getAgain: int,
                               putAgain: int)
    requires Lru.Distinct(c) && Lru.Answer(c, key, getNow) == None
    ensures var (result, c') := LookAside(c, capacity, ttl, key, Failure(e), getNow, putNow);
            && result == Failure(e)
            && (forall entry <- c' :: entry in c)
            && LookAside(c', capacity, ttl, key, other, getAgain, putAgain).0 == other
  {
    var c' := Lru.AfterGet(c, key, getNow);
    Lru.GetMeaning(c, key, getNow);
    Lru.OthersOnly(c, key);
    assert Lru.Find(c', key) == |c'|;
  }

  // ----- one object against the store

  /** A call that processObject makes on the store. */
  datatype StoreCall =
    | HeadCall(repositoryID: int64, oid: string)
    | PresignDownloadCall(repositoryID: int64, oid: string)
    | PresignUploadCall(repositoryID: int64, oid: string, size: int64)

  /** What came of one object, and the store calls it took, in their order. */
  datatype Traced = Traced(outcome: Outcome, calls: seq<StoreCall>)

  /** One request's view of the store: what Head and the presigner answer for each object. */
  datatype StoreView = StoreView(head: (int64, string) -> Result<nat, S3Store.StoreError>,
                                 presign: (Context, RequestObject) -> Result<S3Store.Action, S3Store.StoreError>)

  function HeadFor(ctx: Context, o: RequestObject): StoreCall {
    HeadCall(ctx.repositoryID, o.oid)
  }

  function PresignFor(ctx: Context, o: RequestObject): StoreCall {
    if ctx.operation == "download" then PresignDownloadCall(ctx.repositoryID, o.oid)
    else PresignUploadCall(ctx.repositoryID, o.oid, o.size)
  }

  /** processObject with its store calls: Head first, the presigner only where Head's answer asks for
      it. Calling it elsewhere would change nothing. */
  function ProcessWith(ctx: Context, store: StoreView, o: RequestObject): (t: Traced)
    ensures t.outcome == ProcessObject(ctx, o, store.head(ctx.repositoryID, o.oid), store.presign(ctx, o))
  {
    var head := store.head(ctx.repositoryID, o.oid);
    if NeedsPresign(ctx.operation, o, head) then
      Traced(ProcessObject(ctx, o, head, store.presign(ctx, o)), [HeadFor(ctx, o), PresignFor(ctx, o)])
    else
      Traced(ProcessObject(ctx, o, head, Failure(S3Store.Unavailable)), [HeadFor(ctx, o)])
  }

  /** What the store's answers for an object lead to. */
  function OutcomeOf(ctx: Context, store: StoreView, o: RequestObject): Outcome {
    ProcessObject(ctx, o, store.head(ctx.repositoryID, o.oid), store.presign(ctx, o))
  }

  /** The sequential map over a Batch's objects. */
  function Process(ctx: Context, store: StoreView, objects: seq<RequestObject>): seq<Traced> {
    seq(|objects|, i requires 0 <= i < |objects| => ProcessWith(ctx, store, objects[i]))
  }

  function OutcomesOf(traced: seq<Traced>): seq<Outcome> {
    seq(|traced|, i requires 0 <= i < |traced| => traced[i].outcome)
  }

  lemma Outcomes(ctx: Context, store: StoreView, objects: seq<RequestObject>)
    ensures |OutcomesOf(Process(ctx, store, objects))| == |objects|
    ensures forall i :: 0 <= i < |objects| ==>
              OutcomesOf(Process(ctx, store, objects))[i] == OutcomeOf(ctx, store, objects[i])
  {}

  lemma LabelsCounted(ctx: Context, store: StoreView, objects: seq<RequestObject>)
    ensures var counted := multiset(Labels(ctx.operation, OutcomesOf(Process(ctx, store, objects))));
            forall tag :: counted[tag]
              == |set i: nat | i < |objects| && (ctx.operation, OutcomeOf(ctx, store, objects[i]).result) == tag|
  {
    var outcomes := OutcomesOf(Process(ctx, store, objects));
    Outcomes(ctx, store, objects);
    hide OutcomeOf, OutcomesOf, Process;
    forall tag
      ensures multiset(Labels(ctx.operation, outcomes))[tag]
           == |set i: nat | i < |objects| && (ctx.operation, OutcomeOf(ctx, store, objects[i]).result) == tag|
    {
      LabelCounted(ctx.operation, outcomes, tag);
      assert (set i: nat | i < |objects| && (ctx.operation, OutcomeOf(ctx, store, objects[i]).result) == tag)
          == set i: nat | i < |outcomes| && (ctx.operation, outcomes[i].result) == tag;
    }
  }

  function ResponsesOf(outcomes: seq<Outcome>): seq<Response> {
    seq(|outcomes|, i requires 0 <= i < |outcomes| => outcomes[i].response)
  }

  /** All calls of a Batch; the workers make them in no particular order. */
  function CallsOf(traced: seq<Traced>): multiset<StoreCall> {
    if traced == [] then multiset{} else CallsOf(traced[..|traced| - 1]) + multiset(traced[|traced| - 1].calls)
  }

  /** The objects with this OID. */
  ghost function WithOid(objects: seq<RequestObject>, oid: string): set<nat> {
    set i: nat | i < |objects| && objects[i].oid == oid
  }

  /** Those of them that the store holds with the size asked for. */
  ghost function Stored(objects: seq<RequestObject>, oid: string, head: Result<nat, S3Store.StoreError>): set<nat> {
    set i: nat | i < |objects| && objects[i].oid == oid && head == Success(objects[i].size)
  }

  /** The objects with this OID and size that the store does not hold. */
  ghost function Missing(objects: seq<RequestObject>, oid: string, size: int64,
                         head: Result<nat, S3Store.StoreError>): set<nat>
  {
    set i: nat | i < |objects| && objects[i] == RequestObject(oid, size) && head == Failure(S3Store.NotFound)
  }

  /** A Batch's store calls are these and no others: one Head for every object, under the Batch's own
      repository; for a download, one presigned download for every object that is stored with its size;
      for an upload, one presigned upload for every object that is not stored. */
  ghost predicate AsksStore(asked: multiset<StoreCall>, operation: string, repositoryID: int64, store: StoreView,
                            objects: seq<RequestObject>)
  {
    forall call :: asked[call] == Expected(call, operation, repositoryID, store, objects)
  }

  ghost function Expected(call: StoreCall, operation: string, repositoryID: int64, store: StoreView,
                          objects: seq<RequestObject>): nat
  {
    match call
    case HeadCall(id, oid) => if id == repositoryID then |WithOid(objects, oid)| else 0
    case PresignDownloadCall(id, oid) =>
      if id == repositoryID && operation == "download" then |Stored(objects, oid, store.head(id, oid))| else 0
    case PresignUploadCall(id, oid, size) =>
      if id == repositoryID && operation != "download" then |Missing(objects, oid, size, store.head(id, oid))| else 0
  }

  /** The calls of one object. */
  lemma CallsOfOne(ctx: Context, store: StoreView, o: RequestObject, call: StoreCall)
    ensures var calls, head := multiset(ProcessWith(ctx, store, o).calls), store.head(ctx.repositoryID, o.oid);
            calls[call] ==
              if && call.repositoryID == ctx.repositoryID && call.oid == o.oid
                 && match call
                    case HeadCall(_, _) => true
                    case PresignDownloadCall(_, _) => ctx.operation == "download" && head == Success(o.size)
                    case PresignUploadCall(_, _, size) =>
                      ctx.operation != "download" && size == o.size && head == Failure(S3Store.NotFound)
              then 1 else 0
  {
    hide ProcessObject;
  }

  lemma OneMoreWithOid(objects: seq<RequestObject>, oid: string)
    requires objects != []
    ensures var n := |objects| - 1;
            |WithOid(objects, oid)| == |WithOid(objects[..n], oid)| + (if objects[n].oid == oid then 1 else 0)
  {
    var n := |objects| - 1;
    assert WithOid(objects, oid) == WithOid(objects[..n], oid) + if objects[n].oid == oid then {n} else {};
  }

  lemma OneMoreStored(objects: seq<RequestObject>, oid: string, head: Result<nat, S3Store.StoreError>)
    requires objects != []
    ensures var n := |objects| - 1;
            |Stored(objects, oid, head)| == |Stored(objects[..n], oid, head)|
              + (if objects[n].oid == oid && head == Success(objects[n].size) then 1 else 0)
  {
    var n := |objects| - 1;
    assert Stored(objects, oid, head)
        == Stored(objects[..n], oid, head)
           + if objects[n].oid == oid && head == Success(objects[n].size) then {n} else {};
  }

  lemma OneMoreMissing(objects: seq<RequestObject>, oid: string, size: int64, head: Result<nat, S3Store.StoreError>)
    requires objects != []
    ensures var n := |objects| - 1;
            |Missing(objects, oid, size, head)| == |Missing(objects[..n], oid, size, head)|
              + (if objects[n] == RequestObject(oid, size) && head == Failure(S3Store.NotFound) then 1 else 0)
  {
    var n := |objects| - 1;
    assert Missing(objects, oid, size, head)
        == Missing(objects[..n], oid, size, head)
           + if objects[n] == RequestObject(oid, size) && head == Failure(S3Store.NotFound) then {n} else {};
  }

  /** How often a call is expected grows by what the last object adds. */
  lemma ExpectedGrows(ctx: Context, store: StoreView, objects: seq<RequestObject>, call: StoreCall)
    requires objects != []
    ensures var n := |objects| - 1;
            Expected(call, ctx.operation, ctx.repositoryID, store, objects)
              == Expected(call, ctx.operation, ctx.repositoryID, store, objects[..n])
               + multiset(ProcessWith(ctx, store, objects[n]).calls)[call]
  {
    var o := objects[|objects| - 1];
    CallsOfOne(ctx, store, o, call);
    hide ProcessWith, WithOid, Stored, Missing;
    match call
    case HeadCall(_, oid) => OneMoreWithOid(objects, oid);
    case PresignDownloadCall(id, oid) => OneMoreStored(objects, oid, store.head(id, oid));
    case PresignUploadCall(id, oid, size) => OneMoreMissing(objects, oid, size, store.head(id, oid));
  }

  lemma {:induction false} CallsCounted(ctx: Context, store: StoreView, objects: seq<RequestObject>)
    ensures AsksStore(CallsOf(Process(ctx, store, objects)), ctx.operation, ctx.repositoryID, store, objects)
    decreases |objects|
  {
    var traced := Process(ctx, store, objects);
    if objects != [] {
      var n := |objects| - 1;
      CallsCounted(ctx, store, objects[..n]);
      assert traced[..n] == Process(ctx, store, objects[..n]) && traced[n] == ProcessWith(ctx, store, objects[n]);
      hide Expected, Process, ProcessWith;
      assert CallsOf(traced) == CallsOf(traced[..n]) + multiset(traced[n].calls);
      forall call: StoreCall
        ensures CallsOf(traced)[call] == Expected(call, ctx.operation, ctx.repositoryID, store, objects)
      {
        ExpectedGrows(ctx, store, objects, call);
      }
    }
  }

  datatype BatchReply = Rejected(reply: Reply) | Accepted(objects: seq<Response>)

  class Handler {
    const maxObjectSize: int64
    const concurrency: int
    const cache: AuthCache.Cache
    var hits: nat
    var misses: nat
    var batchObjects: multiset<(string, string)>   // the counter under (operation, result)

    constructor (maxObjectSize: int64, option: int, cache: AuthCache.Cache)
      requires cache.Valid()
      ensures this.maxObjectSize == maxObjectSize && this.cache == cache
      ensures hits == 0 && misses == 0 && batchObjects == multiset{}
      ensures concurrency == if option > 0 then option else 16
    {
      this.maxObjectSize := maxObjectSize;
      this.concurrency := Concurrency(option);
      this.cache := cache;
      hits, misses, batchObjects := 0, 0, multiset{};
    }

    /** The miss path of authorize: ask, and store a successful answer. */
    method AskAndStore(r: Request, authorizer: Request -> Result<Authorization, Error>, putNow: int)
        returns (result: Result<Authorization, Error>)
      requires cache.Valid()
      modifies cache, cache.lru, cache.lru.root, cache.lru.nodes
      ensures cache.Valid() && result == authorizer(r)
      ensures cache.contents
           == StoreAnswer(old(cache.contents), cache.capacity, cache.ttl, cache.mac(CacheKey.Preimage(r)),
                          authorizer(r), putNow)
    {
      hide Lru.AfterPut;
      result := authorizer(r);
      if result.Success? {
        cache.Put(r, result.value, putNow);
      }
    }

    /** authorize, undisturbed by other calls. */
    method Authorize(r: Request, authorizer: Request -> Result<Authorization, Error>, getNow: int, putNow: int)
        returns (result: Result<Authorization, Error>)
      requires cache.Valid()
      modifies this`hits, this`misses, cache, cache.lru, cache.lru.root, cache.lru.nodes
      ensures cache.Valid() && hits + misses == old(hits + misses) + 1
      ensures var cached := Lru.Answer(old(cache.contents), cache.mac(CacheKey.Preimage(r)), getNow);
              hits == old(hits) + if cached.Some? then 1 else 0
      ensures (result, cache.contents)
           == LookAside(old(cache.contents), cache.capacity, cache.ttl, cache.mac(CacheKey.Preimage(r)),
                        authorizer(r), getNow, putNow)
    {
      hide Lru.AfterPut, Lru.AfterGet, Lru.Answer;
      var cached := cache.Get(r, getNow);
      if cached.Some? {
        hits := hits + 1;
        return Success(cached.value);
      }
      misses := misses + 1;
      result := AskAndStore(r, authorizer, putNow);
    }

    /** What authorize gives for a request when the cache holds c. */
    ghost function AuthorizationFrom(c: Lru.Recency<Authorization>, r: Request, answer: Result<Authorization, Error>,
                                     getNow: int, putNow: int): Result<Authorization, Error>
    {
      LookAside(c, cache.capacity, cache.ttl, cache.mac(CacheKey.Preimage(r)), answer, getNow, putNow).0
    }

    /** What the cache holds afterwards. */
    ghost function ContentsAfter(c: Lru.Recency<Authorization>, r: Request, answer: Result<Authorization, Error>,
                                 getNow: int, putNow: int): Lru.Recency<Authorization>
    {
      LookAside(c, cache.capacity, cache.ttl, cache.mac(CacheKey.Preimage(r)), answer, getNow, putNow).1
    }

    /** The part of batch before the objects: validation, credentials, authorization, permission. A
        request that fails validation or carries no token never reaches the cache. */
    method Admit(input: BatchRequest, token: Option<string>, owner: string, repository: string,
                 authorizer: Request -> Result<Authorization, Error>, getNow: int, putNow: int)
        returns (admission: Admission)
      requires cache.Valid()
      modifies this`hits, this`misses, cache, cache.lru, cache.lru.root, cache.lru.nodes
      ensures cache.Valid()
      ensures CheckBatch(maxObjectSize, input).Some? || token == None ==>
                cache.contents == old(cache.contents) && hits == old(hits) && misses == old(misses)
      ensures CheckBatch(maxObjectSize, input) == None && token.Some? ==>
                var r := Request(token.value, owner, repository);
                && cache.contents == ContentsAfter(old(cache.contents), r, authorizer(r), getNow, putNow)
                && hits + misses == old(hits + misses) + 1
      ensures token == None ==> admission == AdmitBatch(maxObjectSize, input, false, Failure(Other))
      ensures token.Some? ==>
                var r := Request(token.value, owner, repository);
                admission == AdmitBatch(maxObjectSize, input, true,
                                        AuthorizationFrom(old(cache.contents), r, authorizer(r), getNow, putNow))
    {
      var error := ValidateBatch(maxObjectSize, input);
      if error.Some? {
        return Refused(Status(422, None));
      }
      if token == None {
        return Refused(Status(401, None));
      }
      var authorization := Authorize(Request(token.value, owner, repository), authorizer, getNow, putNow);
      if authorization.Failure? {
        return Refused(ForgeReply(authorization.error));
      }
      if input.operation == "download" && authorization.value.permission.Level() < Permission.Read.Level() {
        return Refused(Status(404, None));
      }
      if input.operation == "upload" && authorization.value.permission.Level() < Permission.Write.Level() {
        return Refused(Status(403, None));
      }
      return Admitted(authorization.value.repositoryID);
    }

    /** batch, from a decoded request to its reply. A refused request makes no store call and raises no
        Batch counter, though its authorization may have counted a cache hit or miss. An admitted one
        makes one Head call per object and presigns exactly where the Head answer calls for it; it
        gets the sequential map of processObject over its objects, and the counters rise by its
        labels. `token` is None without usable credentials. */
    method Batch(input: BatchRequest, token: Option<string>, owner: string, repository: string, verifyUrl: string,
                 credentials: string, authorizer: Request -> Result<Authorization, Error>, store: StoreView,
                 getNow: int, putNow: int)
        returns (ghost admission: Admission, reply: BatchReply, asked: multiset<StoreCall>)
      requires cache.Valid() && concurrency > 0
      modifies this`hits, this`misses, this`batchObjects, cache, cache.lru, cache.lru.root, cache.lru.nodes
      ensures cache.Valid()
      ensures CheckBatch(maxObjectSize, input).Some? || token == None ==>
                cache.contents == old(cache.contents) && hits == old(hits) && misses == old(misses)
      ensures CheckBatch(maxObjectSize, input) == None && token.Some? ==>
                var r := Request(token.value, owner, repository);
                && cache.contents == ContentsAfter(old(cache.contents), r, authorizer(r), getNow, putNow)
                && hits + misses == old(hits + misses) + 1
      ensures token == None ==> admission == AdmitBatch(maxObjectSize, input, false, Failure(Other))
      ensures token.Some? ==>
                var r := Request(token.value, owner, repository);
                admission == AdmitBatch(maxObjectSize, input, true,
                                        AuthorizationFrom(old(cache.contents), r, authorizer(r), getNow, putNow))
      ensures admission.Refused? ==>
                reply == Rejected(admission.reply) && asked == multiset{} && batchObjects == old(batchObjects)
      ensures admission.Admitted? ==>
                var ctx := Context(input.operation, admission.repositoryID, verifyUrl, credentials);
                && reply.Accepted? && |reply.objects| == |input.objects|
                && (forall i :: 0 <= i < |input.objects| ==>
                      reply.objects[i] == OutcomeOf(ctx, store, input.objects[i]).response)
                && (forall tag :: batchObjects[tag] == old(batchObjects)[tag]
                      + |set i: nat | i < |input.objects|
                                      && (input.operation, OutcomeOf(ctx, store, input.objects[i]).result) == tag|)
                && AsksStore(asked, input.operation, admission.repositoryID, store, input.objects)
    {
      hide Lru.AfterPut, Lru.AfterGet, Lru.Answer, CallsOf, AsksStore, OutcomeOf;
      asked := multiset{};
      var decision := Admit(input, token, owner, repository, authorizer, getNow, putNow);
      admission := decision;
      match decision
      case Refused(status) =>
        reply := Rejected(status);
      case Admitted(repositoryID) =>
        var ctx := Context(input.operation, repositoryID, verifyUrl, credentials);
        var traced := ProcessAll(ctx, store, input.objects);
        asked := CallsOf(traced);
        CallsCounted(ctx, store, input.objects);
        var outcomes := OutcomesOf(traced);
        Outcomes(ctx, store, input.objects);
        LabelsCounted(ctx, store, input.objects);
        batchObjects := batchObjects + multiset(Labels(input.operation, outcomes));
        reply := Accepted(ResponsesOf(outcomes));
    }

    /** The objects of an admitted Batch, through the worker pool. */
    method ProcessAll(ctx: Context, store: StoreView, objects: seq<RequestObject>) returns (traced: seq<Traced>)
      requires concurrency > 0
      ensures traced == Process(ctx, store, objects)
    {
      var output := new Traced[|objects|];
      ProcessObjects(concurrency, objects, (o: RequestObject) => ProcessWith(ctx, store, o), output);
      traced := output[..];
    }
  }
}
