/** The Batch and Verify decisions of the protocol handler, starting from decoded requests. */
module Protocol {
  import opened Wrappers
  import opened GoText
  import opened ObjectKey
  import opened Forge
  import S3Store
  import RetryDelay

  const MAXIMUM_BATCH_OBJECTS: nat := 1000

  datatype RequestObject = RequestObject(oid: string, size: int64)

  datatype BatchRequest = BatchRequest(operation: string, transfers: seq<string>, hashAlgo: string,
                                       objects: seq<RequestObject>)

  datatype BatchError =
    | BadOperation
    | BadHashAlgo
    | BasicTransferRequired
    | TooManyObjects
    | BadOid
    | BadSize
    | ConflictingSizes(oid: string)

  // ----- validation

  ghost predicate ValidObject(maxObjectSize: int64, o: RequestObject) {
    IsOid(o.oid) && 0 <= o.size <= maxObjectSize
  }

  /** Every object valid, and equal OIDs with equal sizes. */
  ghost predicate Consistent(maxObjectSize: int64, objects: seq<RequestObject>) {
    && (forall i :: 0 <= i < |objects| ==> ValidObject(maxObjectSize, objects[i]))
    && (forall i, j :: 0 <= i < j < |objects| && objects[i].oid == objects[j].oid ==>
          objects[i].size == objects[j].size)
  }

  /** The documented rule for a Batch request. */
  ghost predicate Acceptable(maxObjectSize: int64, input: BatchRequest) {
    && input.operation in {"upload", "download"}
    && input.hashAlgo in {"", "sha256"}
    && (input.transfers == [] || "basic" in input.transfers)
    && |input.objects| <= MAXIMUM_BATCH_OBJECTS
    && Consistent(maxObjectSize, input.objects)
  }

  function ValidateObject(maxObjectSize: int64, o: RequestObject): (error: Option<BatchError>)
    ensures error == None <==> ValidObject(maxObjectSize, o)
  {
    KeyAccepts(0, o.oid);
    if |o.oid| != 64 then Some(BadOid)
    else if !HexDecodes(o.oid) || o.oid != ToLower(o.oid) then Some(BadOid)
    else if o.size < 0 || o.size > maxObjectSize then Some(BadSize)
    else None
  }

  /** The complaint about the earliest object that is invalid or disagrees with an earlier one. */
  function CheckObjects(maxObjectSize: int64, objects: seq<RequestObject>): Option<BatchError> {
    if objects == [] then None
    else
      var n := |objects| - 1;
      match CheckObjects(maxObjectSize, objects[..n])
      case Some(e) => Some(e)
      case None =>
        match ValidateObject(maxObjectSize, objects[n])
        case Some(e) => Some(e)
        case None =>
          if exists j :: 0 <= j < n && objects[j].oid == objects[n].oid && objects[j].size != objects[n].size
          then Some(ConflictingSizes(objects[n].oid)) else None
  }

  lemma {:induction false} CheckObjectsMeaning(maxObjectSize: int64, objects: seq<RequestObject>)
    ensures CheckObjects(maxObjectSize, objects) == None <==> Consistent(maxObjectSize, objects)
  {
    if objects != [] {
      var n := |objects| - 1;
      var front := objects[..n];
      CheckObjectsMeaning(maxObjectSize, front);
      if CheckObjects(maxObjectSize, objects) == None {
        assert forall i :: 0 <= i < n ==> objects[i] == front[i];
      }
    }
  }

  lemma {:induction false} CheckPersists(maxObjectSize: int64, objects: seq<RequestObject>, k: nat)
    requires k <= |objects| && CheckObjects(maxObjectSize, objects[..k]).Some?
    ensures CheckObjects(maxObjectSize, objects) == CheckObjects(maxObjectSize, objects[..k])
  {
    if k == |objects| {
      assert objects[..k] == objects;
    } else {
      assert objects[..|objects| - 1][..k] == objects[..k];
      CheckPersists(maxObjectSize, objects[..|objects| - 1], k);
    }
  }

  function CheckBatch(maxObjectSize: int64, input: BatchRequest): Option<BatchError> {
    if input.operation !in {"upload", "download"} then Some(BadOperation)
    else if input.hashAlgo !in {"", "sha256"} then Some(BadHashAlgo)
    else if input.transfers != [] && "basic" !in input.transfers then Some(BasicTransferRequired)
    else if |input.objects| > MAXIMUM_BATCH_OBJECTS then Some(TooManyObjects)
    else CheckObjects(maxObjectSize, input.objects)
  }

  /** Object i is the first at fault, and this is its fault. */
  ghost predicate AtFault(maxObjectSize: int64, objects: seq<RequestObject>, i: nat, error: BatchError) {
    && i < |objects| && Consistent(maxObjectSize, objects[..i])
    && var o := objects[i];
    match error
    case BadOid => !IsOid(o.oid)
    case BadSize => IsOid(o.oid) && (o.size < 0 || o.size > maxObjectSize)
    case ConflictingSizes(oid) =>
      && ValidObject(maxObjectSize, o) && oid == o.oid
      && exists j :: 0 <= j < i && objects[j].oid == o.oid && objects[j].size != o.size
    case _ => false
  }

  /** The complaint is about the earliest object at fault, and names its fault. */
  lemma {:induction false} EarliestFault(maxObjectSize: int64, objects: seq<RequestObject>, error: BatchError)
    ensures CheckObjects(maxObjectSize, objects) == Some(error)
       <==> exists i: nat :: AtFault(maxObjectSize, objects, i, error)
  {
    if objects != [] {
      var n, front := |objects| - 1, objects[..|objects| - 1];
      EarliestFault(maxObjectSize, front, error);
      CheckObjectsMeaning(maxObjectSize, front);
      FaultCause(maxObjectSize, objects, error);
      forall i: nat | i < n
        ensures AtFault(maxObjectSize, objects, i, error) <==> AtFault(maxObjectSize, front, i, error)
      {
        assert front[..i] == objects[..i];
      }
      assert AtFault(maxObjectSize, objects, n, error) ==> Consistent(maxObjectSize, front);
      hide AtFault, Consistent;
    }
  }

  /** The last object, when those before it are consistent. */
  lemma FaultCause(maxObjectSize: int64, objects: seq<RequestObject>, error: BatchError)
    requires objects != []
    ensures var n := |objects| - 1;
            CheckObjects(maxObjectSize, objects[..n]) == None ==>
              (CheckObjects(maxObjectSize, objects) == Some(error) <==> AtFault(maxObjectSize, objects, n, error))
  {
    var n := |objects| - 1;
    CheckObjectsMeaning(maxObjectSize, objects[..n]);
    ObjectFault(maxObjectSize, objects[n]);
    hide ValidateObject, IsOid;
  }

  lemma ObjectFault(maxObjectSize: int64, o: RequestObject)
    ensures ValidateObject(maxObjectSize, o) == Some(BadOid) <==> !IsOid(o.oid)
    ensures ValidateObject(maxObjectSize, o) == Some(BadSize)
       <==> IsOid(o.oid) && (o.size < 0 || o.size > maxObjectSize)
    ensures ValidateObject(maxObjectSize, o) in {None, Some(BadOid), Some(BadSize)}
  {
    KeyAccepts(0, o.oid);
  }

  /** The accepted requests are exactly those that meet the documented rule, and every OID in one
      makes a storage key, so no later store call fails on key construction. */
  lemma CheckBatchMeaning(maxObjectSize: int64, input: BatchRequest, repositoryID: int64)
    ensures CheckBatch(maxObjectSize, input) == None <==> Acceptable(maxObjectSize, input)
    ensures CheckBatch(maxObjectSize, input) == None ==>
              forall o <- input.objects :: Key(repositoryID, o.oid).Success?
  {
    CheckObjectsMeaning(maxObjectSize, input.objects);
    if CheckBatch(maxObjectSize, input) == None {
      forall o | o in input.objects ensures Key(repositoryID, o.oid).Success? {
        KeyAccepts(repositoryID, o.oid);
      }
    }
  }

  /** Which complaint a request gets: the first of the request's own, in this order, and then that about
      the earliest object at fault. */
  lemma BatchFault(maxObjectSize: int64, input: BatchRequest, error: BatchError)
    ensures CheckBatch(maxObjectSize, input) == Some(error) <==>
              var known := input.operation == "upload" || input.operation == "download";
              var hashed := input.hashAlgo == "" || input.hashAlgo == "sha256";
              var basic :=
                |input.transfers| == 0 || exists i :: 0 <= i < |input.transfers| && input.transfers[i] == "basic";
              match error
              case BadOperation => !known
              case BadHashAlgo => known && !hashed
              case BasicTransferRequired => known && hashed && !basic
              case TooManyObjects => known && hashed && basic && |input.objects| > 1000
              case _ =>
                && known && hashed && basic && |input.objects| <= 1000
                && exists i: nat :: AtFault(maxObjectSize, input.objects, i, error)
  {
    EarliestFault(maxObjectSize, input.objects, error);
    if error.BadOperation? || error.BadHashAlgo? || error.BasicTransferRequired? || error.TooManyObjects? {
      assert forall i: nat :: !AtFault(maxObjectSize, input.objects, i, error);
    }
    hide CheckObjects, AtFault;
  }

  /** validateBatch: one pass with a map from each OID to the size it last came with. */
  method ValidateBatch(maxObjectSize: int64, input: BatchRequest) returns (error: Option<BatchError>)
    ensures error == CheckBatch(maxObjectSize, input)
    ensures error == None <==> Acceptable(maxObjectSize, input)
  {
    CheckBatchMeaning(maxObjectSize, input, 0);
    if input.operation != "upload" && input.operation != "download" {
      return Some(BadOperation);
    }
    if input.hashAlgo != "" && input.hashAlgo != "sha256" {
      return Some(BadHashAlgo);
    }
    if |input.transfers| > 0 {
      var basic := false;
      for i := 0 to |input.transfers|
        invariant basic <==> "basic" in input.transfers[..i]
      {
        if input.transfers[i] == "basic" {
          basic := true;
        }
      }
      assert input.transfers[..|input.transfers|] == input.transfers;
      if !basic {
        return Some(BasicTransferRequired);
      }
    }
    if |input.objects| > MAXIMUM_BATCH_OBJECTS {
      return Some(TooManyObjects);
    }
    error := CheckInOnePass(maxObjectSize, input.objects);
  }

  ghost predicate Conflicts(objects: seq<RequestObject>, i: nat)
    requires i < |objects|
  {
    exists j :: 0 <= j < i && objects[j].oid == objects[i].oid && objects[j].size != objects[i].size
  }

  /** What looking at one more object adds: nothing, or the final answer of the whole check. */
  lemma CheckNext(maxObjectSize: int64, objects: seq<RequestObject>, i: nat)
    requires i < |objects| && CheckObjects(maxObjectSize, objects[..i]) == None
    ensures match ValidateObject(maxObjectSize, objects[i])
            case Some(e) => CheckObjects(maxObjectSize, objects) == Some(e)
            case None =>
              if Conflicts(objects, i)
              then CheckObjects(maxObjectSize, objects) == Some(ConflictingSizes(objects[i].oid))
              else CheckObjects(maxObjectSize, objects[..i + 1]) == None
  {
    hide ValidateObject;
    var front := objects[..i + 1];
    assert front[..i] == objects[..i];
    if Conflicts(objects, i) {
      var j :| 0 <= j < i && objects[j].oid == objects[i].oid && objects[j].size != objects[i].size;
      assert front[j] == objects[j];
    }
    if CheckObjects(maxObjectSize, front).Some? {
      CheckPersists(maxObjectSize, objects, i + 1);
    }
  }

  /** The object loop of validateBatch. */
  method CheckInOnePass(maxObjectSize: int64, objects: seq<RequestObject>) returns (error: Option<BatchError>)
    ensures error == CheckObjects(maxObjectSize, objects)
  {
    hide ValidateObject;
    var seen: map<string, int64> := map[];
    for i := 0 to |objects|
      invariant CheckObjects(maxObjectSize, objects[..i]) == None
      invariant forall j :: 0 <= j < i ==> objects[j].oid in seen && seen[objects[j].oid] == objects[j].size
      invariant forall oid <- seen :: exists j :: 0 <= j < i && objects[j].oid == oid
    {
      var item := objects[i];
      CheckNext(maxObjectSize, objects, i);
      var invalid := ValidateObject(maxObjectSize, item);
      if invalid.Some? {
        return invalid;
      }
      if item.oid in seen && seen[item.oid] != item.size {
        return Some(ConflictingSizes(item.oid));
      }
      seen := seen[item.oid := item.size];
    }
    assert objects[..|objects|] == objects;
    return None;
  }

  // ----- one object of a Batch

  datatype ActionOut = ActionOut(href: Href, header: map<string, string>, expiresIn: int, authenticated: bool)

  /** A presigned request of the store, or the Verify endpoint. */
  datatype Href = Presigned(verb: string, key: string) | VerifyUrl(url: string)

  datatype ObjectError = ObjectError(code: int, message: string)

  datatype Response = Response(oid: string, size: int64, authenticated: bool, actions: map<string, ActionOut>,
                               error: Option<ObjectError>)

  /** A response and the label its Batch counter was raised under. */
  datatype Outcome = Outcome(response: Response, result: string)

  /** What an accepted Batch fixes for all its objects. */
  datatype Context = Context(operation: string, repositoryID: int64, verifyUrl: string, credentials: string)

  function FromStorage(a: S3Store.Action, authenticated: bool): ActionOut {
    ActionOut(Presigned(a.verb, a.key), a.header, a.expiresIn, authenticated)
  }

  function Failed(response: Response, code: int, message: string, result: string): Outcome {
    Outcome(response.(error := Some(ObjectError(code, message))), result)
  }

  const UNAVAILABLE := "object storage is temporarily unavailable"

  /** processObject, given what the store's Head and, where it is called, its presigner answered. */
  function ProcessObject(ctx: Context, input: RequestObject, head: Result<nat, S3Store.StoreError>,
                         presigned: Result<S3Store.Action, S3Store.StoreError>): Outcome
  {
    var response := Response(input.oid, input.size, true, map[], None);
    if ctx.operation == "download" then
      match head
      case Failure(NotFound) => Failed(response, 404, "object not found", "not_found")
      case Failure(_) => Failed(response, 503, UNAVAILABLE, "unavailable")
      case Success(size) =>
        if size != input.size then
          Failed(response, 422, "stored object size does not match requested size", "mismatch")
        else
          match presigned
          case Failure(_) => Failed(response, 503, UNAVAILABLE, "unavailable")
          case Success(get) => Outcome(response.(actions := map["download" := FromStorage(get, true)]), "download")
    else
      match head
      case Success(size) =>
        if size == input.size then Outcome(response, "exists")
        else Failed(response, 422, "an object with this OID has a different stored size", "mismatch")
      case Failure(NotFound) =>
        (match presigned
         case Failure(_) => Failed(response, 503, UNAVAILABLE, "unavailable")
         case Success(put) =>
           var verify := ActionOut(VerifyUrl(ctx.verifyUrl), map["Authorization" := ctx.credentials], 0, true);
           Outcome(response.(actions := map["upload" := FromStorage(put, false), "verify" := verify]), "upload"))
      case Failure(_) => Failed(response, 503, UNAVAILABLE, "unavailable")
  }

  /** The presigner is called only after these Head answers. */
  predicate NeedsPresign(operation: string, input: RequestObject, head: Result<nat, S3Store.StoreError>) {
    if operation == "download" then head.Success? && head.value == input.size else head == Failure(S3Store.NotFound)
  }

  /** Which is exactly where what it answers makes a difference. */
  lemma PresignMatters(ctx: Context, input: RequestObject, head: Result<nat, S3Store.StoreError>)
    ensures NeedsPresign(ctx.operation, input, head) <==>
              exists a, b :: ProcessObject(ctx, input, head, a) != ProcessObject(ctx, input, head, b)
  {
    if NeedsPresign(ctx.operation, input, head) {
      var a: Result<S3Store.Action, S3Store.StoreError> := Failure(S3Store.Unavailable);
      var b: Result<S3Store.Action, S3Store.StoreError> := Success(S3Store.Action("", "", map[], 0));
      assert ProcessObject(ctx, input, head, a).result == "unavailable";
      assert ProcessObject(ctx, input, head, b).result != "unavailable";
    }
  }

  /** The one shape a counter label stands for. */
  ghost predicate ShapeOf(operation: string, result: string, r: Response) {
    match result
    case "download" => operation == "download" && r.error == None && r.actions.Keys == {"download"}
    case "upload" => operation != "download" && r.error == None && r.actions.Keys == {"upload", "verify"}
    case "exists" => operation != "download" && r.error == None && r.actions == map[]
    case "not_found" =>
      operation == "download" && r.actions == map[] && r.error == Some(ObjectError(404, "object not found"))
    case "mismatch" =>
      r.actions == map[]
      && r.error == Some(ObjectError(422, if operation == "download"
                                          then "stored object size does not match requested size"
                                          else "an object with this OID has a different stored size"))
    case "unavailable" =>
      r.actions == map[] && r.error == Some(ObjectError(503, "object storage is temporarily unavailable"))
    case _ => false
  }

  const RESULTS: set<string> := {"download", "upload", "exists", "not_found", "mismatch", "unavailable"}

  /** Every object is echoed and answered in exactly one shape, the one its counter label names. */
  lemma OneShapeEach(ctx: Context, input: RequestObject, head: Result<nat, S3Store.StoreError>,
                     presigned: Result<S3Store.Action, S3Store.StoreError>)
    ensures var o := ProcessObject(ctx, input, head, presigned);
            && o.response.oid == input.oid && o.response.size == input.size && o.response.authenticated
            && o.result in RESULTS
            && forall result <- RESULTS :: ShapeOf(ctx.operation, result, o.response) <==> result == o.result
  {
    var o := ProcessObject(ctx, input, head, presigned);
    OwnShape(ctx, input, head, presigned);
    hide ShapeOf;
    forall result | result in RESULTS ensures ShapeOf(ctx.operation, result, o.response) <==> result == o.result {
      ShapesExclude(ctx.operation, result, o.result, o.response);
    }
  }

  lemma OwnShape(ctx: Context, input: RequestObject, head: Result<nat, S3Store.StoreError>,
                 presigned: Result<S3Store.Action, S3Store.StoreError>)
    ensures var o := ProcessObject(ctx, input, head, presigned);
            o.result in RESULTS && ShapeOf(ctx.operation, o.result, o.response)
  {
    if ctx.operation == "download" {
      DownloadShape(ctx, input, head, presigned);
    } else {
      UploadShape(ctx, input, head, presigned);
    }
  }

  lemma DownloadShape(ctx: Context, input: RequestObject, head: Result<nat, S3Store.StoreError>,
                      presigned: Result<S3Store.Action, S3Store.StoreError>)
    requires ctx.operation == "download"
    ensures var o := ProcessObject(ctx, input, head, presigned);
            o.result in RESULTS && ShapeOf(ctx.operation, o.result, o.response)
  {
    var r := ProcessObject(ctx, input, head, presigned).response;
    assert r.actions == map[] || r.actions.Keys == {"download"};
  }

  lemma UploadShape(ctx: Context, input: RequestObject, head: Result<nat, S3Store.StoreError>,
                    presigned: Result<S3Store.Action, S3Store.StoreError>)
    requires ctx.operation != "download"
    ensures var o := ProcessObject(ctx, input, head, presigned);
            o.result in RESULTS && ShapeOf(ctx.operation, o.result, o.response)
  {
    var r := ProcessObject(ctx, input, head, presigned).response;
    assert r.actions == map[] || r.actions.Keys == {"upload", "verify"};
  }

  lemma ShapesExclude(operation: string, a: string, b: string, r: Response)
    requires a in RESULTS && b in RESULTS && ShapeOf(operation, b, r)
    ensures ShapeOf(operation, a, r) <==> a == b
  {
    assert "upload" in {"upload", "verify"};
    assert r.actions == map[] ==> "upload" !in r.actions.Keys && "download" !in r.actions.Keys;
  }

  // ----- admission and Verify

  datatype Reply = Status(code: int, retryAfter: Option<string>)

  /** writeForgeError. */
  function ForgeReply(e: Error): Reply {
    match e
    case RetryAfter(delay) => Status(429, Some(FormatInt(RetryDelay.EmittedSeconds(Some(delay)))))
    case RateLimited => Status(429, Some(FormatInt(RetryDelay.EmittedSeconds(None))))
    case Unauthenticated => Status(401, None)
    case NotFound => Status(404, None)
    case Forbidden => Status(404, None)
    case Unavailable => Status(503, None)
    case Other => Status(503, None)
  }

  /** Every authorizer error is answered as one of four statuses; a rate limit, and nothing else, comes
      with a Retry-After, and that is a positive decimal. */
  lemma ForgeErrorsAnswered(e: Error)
    ensures var reply := ForgeReply(e);
            && (reply.code == 429 <==> e.RateLimited? || e.RetryAfter?)
            && (reply.code == 503 <==> e.Unavailable? || e.Other?)
            && (reply.code == 404 <==> e.NotFound? || e.Forbidden?)
            && (reply.code == 401 <==> e.Unauthenticated?)
            && (reply.retryAfter.Some? <==> reply.code == 429)
            && (reply.retryAfter.Some? ==>
                  ParseInt(reply.retryAfter.value).Some? && ParseInt(reply.retryAfter.value).value >= 1)
            && (e.RateLimited? ==> ParseInt(reply.retryAfter.value) == Some(60))
  {
    var delay := if e.RetryAfter? then Some(e.delay) else None;
    RetryDelay.EmittedRange(delay);
    ParseFormat(RetryDelay.EmittedSeconds(delay));
  }

  datatype Admission = Refused(reply: Reply) | Admitted(repositoryID: int64)

  /** The checks of batch before any object is looked at; `hasToken` says that Basic credentials with
      a password came with the request. */
  function AdmitBatch(maxObjectSize: int64, input: BatchRequest, hasToken: bool,
                      authorization: Result<Authorization, Error>): Admission
  {
    if CheckBatch(maxObjectSize, input).Some? then Refused(Status(422, None))
    else if !hasToken then Refused(Status(401, None))
    else
      match authorization
      case Failure(e) => Refused(ForgeReply(e))
      case Success(a) =>
        if input.operation == "download" && a.permission.Level() < Read.Level() then Refused(Status(404, None))
        else if input.operation == "upload" && a.permission.Level() < Write.Level() then Refused(Status(403, None))
        else Admitted(a.repositoryID)
  }

  /** A Batch is admitted exactly when it meets the documented rule, carries a token, and is
      authorized with the permission its operation needs; it then works on the repository that the
      authorization names. */
  lemma AdmittedExactly(maxObjectSize: int64, input: BatchRequest, hasToken: bool,
                        authorization: Result<Authorization, Error>, repositoryID: int64)
    ensures AdmitBatch(maxObjectSize, input, hasToken, authorization) == Admitted(repositoryID)
       <==> && Acceptable(maxObjectSize, input) && hasToken && authorization.Success?
            && authorization.value.repositoryID == repositoryID
            && authorization.value.permission.AtLeast(if input.operation == "upload" then Write else Read)
  {
    CheckBatchMeaning(maxObjectSize, input, repositoryID);
  }

  ghost predicate RateLimits(authorization: Result<Authorization, Error>) {
    authorization.Failure? && (authorization.error.RateLimited? || authorization.error.RetryAfter?)
  }

  /** The header that tells a rate-limited client when to come back: a minute, or the forge's own delay
      to the nearest second. */
  ghost predicate TellsDelay(e: Error, retryAfter: Option<string>) {
    match e
    case RateLimited => retryAfter == Some("60")
    case RetryAfter(delay) => retryAfter == Some(FormatInt(RetryDelay.NearestSeconds(delay)))
    case _ => retryAfter == None
  }

  lemma ForgeReplyTells(e: Error)
    ensures TellsDelay(e, ForgeReply(e).retryAfter)
  {
    if e.RetryAfter? {
      RetryDelay.EmittedRounded(e.delay);
    } else {
      RetryDelay.EmittedRounded(0);
      assert FormatNat(60) == FormatNat(6) + [DigitChar(0)] == "60";
    }
  }

  /** How a refusal is told: 422 exactly for requests that break the rule; 403 exactly for an upload
      whose authorization falls short of Write; a repository that may not be read looks absent; 429, and
      with it alone the time to wait, exactly for rate limits; 503 exactly for the other failures. */
  lemma RefusedAs(maxObjectSize: int64, input: BatchRequest, hasToken: bool,
                  authorization: Result<Authorization, Error>)
    ensures var admission := AdmitBatch(maxObjectSize, input, hasToken, authorization);
            && (admission == Refused(Status(422, None)) <==> !Acceptable(maxObjectSize, input))
            && (admission == Refused(Status(401, None)) <==>
                  Acceptable(maxObjectSize, input) && (!hasToken || authorization == Failure(Unauthenticated)))
            && (admission == Refused(Status(403, None)) <==>
                  && Acceptable(maxObjectSize, input) && hasToken && authorization.Success?
                  && input.operation == "upload" && !authorization.value.permission.AtLeast(Write))
            && (admission == Refused(Status(404, None)) <==>
                  && Acceptable(maxObjectSize, input) && hasToken
                  && (authorization == Failure(NotFound) || authorization == Failure(Forbidden)
                      || (authorization.Success? && input.operation == "download"
                          && authorization.value.permission == NoPermission)))
            && (admission == Refused(Status(503, None)) <==>
                  && Acceptable(maxObjectSize, input) && hasToken
                  && (authorization == Failure(Unavailable) || authorization == Failure(Other)))
            && (admission.Refused? && admission.reply.code == 429 <==>
                  Acceptable(maxObjectSize, input) && hasToken && RateLimits(authorization))
            && (admission.Refused? && admission.reply.code == 429 ==>
                  TellsDelay(authorization.error, admission.reply.retryAfter))
  {
    CheckBatchMeaning(maxObjectSize, input, 0);
    if authorization.Failure? {
      ForgeReplyTells(authorization.error);
    }
    hide CheckBatch, Acceptable, TellsDelay;
  }

  /** A Retry-After of n seconds sent by GitHub reaches the client of a Batch as the same decimal exactly
      when n seconds fit a 64-bit duration. */
  lemma RetryAfterSurvives(maxObjectSize: int64, input: BatchRequest, n: int64, rateLimitReset: string, now: int)
    requires n > 0 && Acceptable(maxObjectSize, input)
    ensures var delay := RetryDelay.GitHubDelay(FormatInt(n), rateLimitReset, now);
            var admission := AdmitBatch(maxObjectSize, input, true, Failure(RetryAfter(delay)));
            admission == Refused(Status(429, Some(FormatInt(n)))) <==> n <= 9_223_372_036
  {
    var delay := RetryDelay.GitHubDelay(FormatInt(n), rateLimitReset, now);
    CheckBatchMeaning(maxObjectSize, input, 0);
    RetryDelay.RelayedExactly(n, rateLimitReset, now);
    RetryDelay.EmittedRange(Some(delay));
    ParseFormat(n);
    ParseFormat(RetryDelay.EmittedSeconds(Some(delay)));
    hide CheckBatch, Acceptable, RetryDelay.GitHubDelay, RetryDelay.EmittedSeconds, ParseInt;
  }

  datatype Verdict = Verified | Unverified(reply: Reply)

  /** verify. */
  function Verify(maxObjectSize: int64, input: RequestObject, hasToken: bool,
                  authorization: Result<Authorization, Error>, head: int64 -> Result<nat, S3Store.StoreError>): Verdict
  {
    if ValidateObject(maxObjectSize, input).Some? then Unverified(Status(422, None))
    else if !hasToken then Unverified(Status(401, None))
    else
      match authorization
      case Failure(e) => Unverified(ForgeReply(e))
      case Success(a) =>
        if a.permission.Level() < Write.Level() then Unverified(Status(403, None))
        else
          match head(a.repositoryID)
          case Failure(NotFound) => Unverified(Status(404, None))
          case Failure(_) => Unverified(Status(503, None))
          case Success(size) => if size != input.size then Unverified(Status(422, None)) else Verified
  }

  /** Verify succeeds exactly for a valid object, with a token, for a writer, when the store holds it with
      that size under the writer's repository. */
  lemma VerifiedExactly(maxObjectSize: int64, input: RequestObject, hasToken: bool,
                        authorization: Result<Authorization, Error>,
                        head: int64 -> Result<nat, S3Store.StoreError>)
    ensures Verify(maxObjectSize, input, hasToken, authorization, head) == Verified
       <==> && ValidObject(maxObjectSize, input) && hasToken && authorization.Success?
            && authorization.value.permission == Write
            && head(authorization.value.repositoryID) == Success(input.size)
  {}

  /** And how every refusal is told. */
  lemma UnverifiedAs(maxObjectSize: int64, input: RequestObject, hasToken: bool,
                     authorization: Result<Authorization, Error>,
                     head: int64 -> Result<nat, S3Store.StoreError>)
    ensures var verdict := Verify(maxObjectSize, input, hasToken, authorization, head);
            var asked := ValidObject(maxObjectSize, input) && hasToken;
            var writes := asked && authorization.Success? && authorization.value.permission == Write;
            && (verdict == Unverified(Status(422, None)) <==>
                  || !ValidObject(maxObjectSize, input)
                  || (writes && var stored := head(authorization.value.repositoryID);
                                stored.Success? && stored.value != input.size))
            && (verdict == Unverified(Status(401, None)) <==>
                  ValidObject(maxObjectSize, input) && (!hasToken || authorization == Failure(Unauthenticated)))
            && (verdict == Unverified(Status(403, None)) <==>
                  asked && authorization.Success? && authorization.value.permission != Write)
            && (verdict == Unverified(Status(404, None)) <==>
                  || (asked && (authorization == Failure(NotFound) || authorization == Failure(Forbidden)))
                  || (writes && head(authorization.value.repositoryID) == Failure(S3Store.NotFound)))
            && (verdict == Unverified(Status(503, None)) <==>
                  || (asked && (authorization == Failure(Unavailable) || authorization == Failure(Other)))
                  || (writes && var stored := head(authorization.value.repositoryID);
                                stored.Failure? && stored.error != S3Store.NotFound))
            && (verdict.Unverified? && verdict.reply.code == 429 <==> asked && RateLimits(authorization))
            && (verdict.Unverified? && verdict.reply.code == 429 ==>
                  TellsDelay(authorization.error, verdict.reply.retryAfter))
  {
    if authorization.Failure? {
      ForgeReplyTells(authorization.error);
    }
    hide ValidateObject, ValidObject, TellsDelay;
  }

  /** In any one state of the store, Verify succeeds for a valid object and an authorized writer
      exactly when an upload Batch would answer that the object exists. */
  lemma VerifyAgreesWithBatch(maxObjectSize: int64, input: RequestObject, authorization: Authorization,
                              head: int64 -> Result<nat, S3Store.StoreError>, ctx: Context,
                              presigned: Result<S3Store.Action, S3Store.StoreError>)
    requires ValidObject(maxObjectSize, input) && authorization.permission == Write
    requires ctx.operation == "upload" && ctx.repositoryID == authorization.repositoryID
    ensures Verify(maxObjectSize, input, true, Success(authorization), head) == Verified
       <==> ProcessObject(ctx, input, head(ctx.repositoryID), presigned).result == "exists"
  {}
}
