/** The object store adapter: what it asks of the S3 provider and what its presigned requests bind.
    The provider itself is a map from keys to bodies; `hash` stands for SHA-256 in lowercase hex. */
module S3Store {
  import opened Durations
  import opened Wrappers
  import opened GoText
  import opened ObjectKey

  type Body = seq<bv8>

  type Bucket = map<string, Body>

  datatype StoreError = NotFound | Unavailable | InvalidKey

  /** An SDK error: the HTTP status and the API error code, when it carries them. */
  datatype ProviderError = ProviderError(status: Option<int>, code: Option<string>)

  /** mapError. */
  function MapError(e: ProviderError): StoreError {
    if e.status == Some(404) then NotFound
    else if e.status.Some? && e.status.value in {429, 500, 502, 503, 504} then Unavailable
    else if e.code.Some? && e.code.value in {"NotFound", "NoSuchKey", "NoSuchBucket"} then NotFound
    else Unavailable
  }

  /** What reads as absence: a 404 whatever its code, or one of three codes under a status that does
      not ask for a retry. */
  predicate SaysAbsent(e: ProviderError) {
    || e.status == Some(404)
    || (e.code in {Some("NotFound"), Some("NoSuchKey"), Some("NoSuchBucket")}
        && e.status !in {Some(429), Some(500), Some(502), Some(503), Some(504)})
  }

  /** Those errors and no others are absence; every other one is unavailability. */
  lemma OutageIsNotAbsence(e: ProviderError)
    ensures MapError(e) == NotFound <==> SaysAbsent(e)
    ensures MapError(e) == Unavailable <==> !SaysAbsent(e)
  {
    assert e.status.Some? ==> (e.status in {Some(429), Some(500), Some(502), Some(503), Some(504)}
                               <==> e.status.value in {429, 500, 502, 503, 504});
    assert e.code.Some? ==> (e.code in {Some("NotFound"), Some("NoSuchKey"), Some("NoSuchBucket")}
                             <==> e.code.value in {"NotFound", "NoSuchKey", "NoSuchBucket"});
  }

  // ----- HEAD

  /** The provider's answer to HeadObject: an outage, or the truth about the key. */
  function HeadObject(bucket: Bucket, key: string, outage: Option<ProviderError>): Result<nat, ProviderError> {
    match outage
    case Some(e) => Failure(e)
    case None =>
      if key in bucket then Success(|bucket[key]|) else Failure(ProviderError(Some(404), Some("NotFound")))
  }

  /** Head: the stored size. */
  function Head(bucket: Bucket, repositoryID: int64, oid: string, outage: Option<ProviderError>)
      : Result<nat, StoreError>
  {
    match Key(repositoryID, oid)
    case Failure(_) => Failure(InvalidKey)
    case Success(key) =>
      match HeadObject(bucket, key, outage)
      case Success(size) => Success(size)
      case Failure(e) => Failure(MapError(e))
  }

  /** Head sees nothing: the provider is up and the key is absent, or its error reads as absence. */
  predicate SeemsAbsent(bucket: Bucket, key: string, outage: Option<ProviderError>) {
    match outage
    case None => key !in bucket
    case Some(e) => SaysAbsent(e)
  }

  /** For a valid OID, Head says "not found" exactly when the provider is up and holds nothing under
      the repository's key, or fails with an error that reads as absence; it names a size exactly when
      the provider is up and holds a body of that size; it never blames the key. */
  lemma HeadTellsTheTruth(bucket: Bucket, repositoryID: int64, oid: string, outage: Option<ProviderError>, size: nat)
    requires IsOid(oid)
    ensures Key(repositoryID, oid).Success?
    ensures var key, head := Key(repositoryID, oid).value, Head(bucket, repositoryID, oid, outage);
            && (head == Failure(NotFound) <==> SeemsAbsent(bucket, key, outage))
            && (head == Success(size) <==> outage == None && key in bucket && |bucket[key]| == size)
            && (head == Failure(Unavailable) <==> outage.Some? && !SeemsAbsent(bucket, key, outage))
            && head != Failure(InvalidKey)
  {
    KeyAccepts(repositoryID, oid);
    if outage.Some? {
      OutageIsNotAbsence(outage.value);
    }
    hide MapError, SaysAbsent;
  }

  // ----- presigned requests

  datatype Action = Action(verb: string, key: string, header: map<string, string>, expiresIn: int)

  /** The headers the client must repeat: every signed header's first value, except Host. */
  function RequiredHeaders(signed: map<string, seq<string>>): map<string, string> {
    map name | name in signed && |signed[name]| > 0 && ToLower(name) != "host" :: signed[name][0]
  }

  /** The header loop of actionFromRequest. */
  method ActionHeaders(signed: map<string, seq<string>>) returns (headers: map<string, string>)
    ensures headers == RequiredHeaders(signed)
    ensures forall name :: name in headers <==> name in signed && |signed[name]| > 0 && ToLower(name) != "host"
    ensures forall name <- headers :: headers[name] == signed[name][0]
  {
    hide ToLower;
    headers := map[];
    var names := signed.Keys;
    while names != {}
      invariant names <= signed.Keys
      invariant headers == RequiredHeaders(map name | name in signed && name !in names :: signed[name])
      decreases names
    {
      var name :| name in names;
      if |signed[name]| > 0 && ToLower(name) != "host" {
        headers := headers[name := signed[name][0]];
      }
      names := names - {name};
    }
    assert signed == map name | name in signed && name !in {} :: signed[name];
  }

  /** What SigV4 signs for a conditional PUT of `size` bytes hashing to `oid`. */
  function SignedUpload(host: string, oid: string, size: int64): map<string, seq<string>> {
    map["Host" := [host],
        "Content-Length" := [FormatInt(size)],
        "If-None-Match" := ["*"],
        "X-Amz-Content-Sha256" := [oid]]
  }

  /** The client of an upload must send exactly the three headers that make the PUT safe. */
  lemma UploadHeaders(host: string, oid: string, size: int64)
    ensures RequiredHeaders(SignedUpload(host, oid, size))
         == map["Content-Length" := FormatInt(size), "If-None-Match" := "*", "X-Amz-Content-Sha256" := oid]
  {
    assert ToLower("Host") == "host";
    assert |ToLower("Content-Length")| != 4 && |ToLower("If-None-Match")| != 4;
    assert |ToLower("X-Amz-Content-Sha256")| != 4;
  }

  /** PresignUpload; `signs` is false when the SDK's presigner fails. */
  function PresignUpload(host: string, ttl: nat, repositoryID: int64, oid: string, size: int64, signs: bool)
      : Result<Action, StoreError>
  {
    match Key(repositoryID, oid)
    case Failure(_) => Failure(InvalidKey)
    case Success(key) =>
      if signs then Success(Action("PUT", key, RequiredHeaders(SignedUpload(host, oid, size)), ttl / SECOND))
      else Failure(Unavailable)
  }

  /** PresignDownload. */
  function PresignDownload(host: string, ttl: nat, repositoryID: int64, oid: string, signs: bool)
      : Result<Action, StoreError>
  {
    match Key(repositoryID, oid)
    case Failure(_) => Failure(InvalidKey)
    case Success(key) =>
      if signs then Success(Action("GET", key, RequiredHeaders(map["Host" := [host]]), ttl / SECOND))
      else Failure(Unavailable)
  }

  // ----- the provider's side of a PUT

  /** The provider enforces what was signed: the body has the declared length and hash, and a
      conditional PUT needs the key to be absent (section 13.1.2 of RFC 9110). */
  predicate PutAccepted(bucket: Bucket, put: Action, body: Body, hash: Body -> string) {
    && put.verb == "PUT"
    && "Content-Length" in put.header && ParseInt(put.header["Content-Length"]) == Some(|body|)
    && "X-Amz-Content-Sha256" in put.header && put.header["X-Amz-Content-Sha256"] == hash(body)
    && ("If-None-Match" in put.header && put.header["If-None-Match"] == "*" ==> put.key !in bucket)
  }

  /** A presigned upload is accepted exactly for bodies of the batch's size whose hash is the OID,
      under the repository's own key, and only while that key is absent. */
  lemma UploadBinds(host: string, ttl: nat, repositoryID: int64, oid: string, size: int64, put: Action,
                    bucket: Bucket, body: Body, hash: Body -> string)
    requires PresignUpload(host, ttl, repositoryID, oid, size, true) == Success(put)
    ensures Key(repositoryID, oid) == Success(put.key)
    ensures PutAccepted(bucket, put, body, hash)
       <==> |body| == size && hash(body) == oid && put.key !in bucket
  {
    ParseFormat(size);
    assert ToLower("Content-Length") != "host" && ToLower("X-Amz-Content-Sha256") != "host";
    assert ToLower("If-None-Match") != "host";
  }
}
