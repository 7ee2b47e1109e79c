# GOLFS, modelled and proved in Dafny

GOLFS is a Git LFS server that keeps no state of its own beyond an authorization cache. This project models the
parts of it in which something can go wrong over time, and proves what they keep:

| file | what it models |
|---|---|
| `Service.dfy` | the parts put together: GitHub's answers, the shared cache and the bucket, under all interleavings |
| `Lifecycle.dfy` | many clients against one bucket: Batches, presigned conditional uploads and their replays, Verify, as interleaved atomic store calls |
| `WorkerPool.dfy` | the dispatcher, channel, workers and wait group of one Batch, as a step relation and as a method filling an array |
| `Handler.dfy`, `Protocol.dfy` | validation, admission, per-object answers, Verify, error replies and Batch counters |
| `AuthCache.dfy`, `LinkedList.dfy` | the authorization cache: a hash map into a doubly linked ring, updated in place |
| `Lru.dfy` | the recency sequence the cache refines, with the classic LRU theorems |
| `Lookaside.dfy`, `CacheKey.dfy` | concurrent `authorize` calls over one cache, and the text under the cache key's HMAC |
| `GitHub.dfy`, `LinkHeader.dfy`, `AppToken.dfy`, `RetryDelay.dfy` | the GitHub adapter: page walk, Link header, decision chain, App JWT reuse, Retry-After arithmetic |
| `S3Store.dfy`, `ObjectKey.dfy` | the S3 adapter: what presigned requests bind, what HEAD means, the sharded key |
| `InstallationIds.dfy` | the allowlist parser and both of its validators |
| `GoText.dfy`, `Forge.dfy`, `Durations.dfy`, `Sequences.dfy`, `Wrappers.dfy` | the standard-library text functions used, the authorization boundary, shared helpers |

## Assumptions

- The S3 provider enforces what is signed: a PUT is accepted only with the signed length and payload hash, and
  `If-None-Match: *` only while the key is absent (section 13.1.2 of RFC 9110; docs/content/docs/architecture.md:26-28
  and 44-49). HEAD of a key answers with the true size, or with any error whatever, one that reads as absence
  included; only 404s of an available provider are known to be true.
- The bucket starts empty; nobody deletes objects or writes with direct credentials.
- SHA-256 is an arbitrary function `hash` from bodies to text, the HMAC of the cache key an arbitrary function `mac`.
  Where a lemma needs that nothing clashes, it says so of the bodies or requests of that one run, never of all.
- Clock readings, GitHub's answers, the presigner's success and the store's outages are parameters, and so is the
  order of all steps. Presigned uploads stay usable for ever, which covers every expiry.
- Goroutines interleave at channel operations, locked cache calls and single store calls.
- Strings are sequences of Unicode characters; letter case is ASCII. 64-bit integers are bounded or wrap explicitly
  wherever the code's own arithmetic can reach their limits.

## Where the code and its documentation differ

The model follows the code.

- The cache is called positive (docs/content/docs/architecture.md:12, internal/authcache/cache.go:90), but an answer of
  no permission is cached and served like any other (`Service.NoPermissionIsServed`); the cache is positive exactly
  while no latest store under a key still present put one (`Lookaside.PositiveExactly`).
- Cached answers are said to be bounded by 60 seconds (docs/content/docs/security.md:53). The 60 seconds run from the
  store: a hit's age from the authorizer's answer is below them plus the delay from answer to store
  (`Lookaside.AgeBounded`), and it can reach 60 seconds exactly where there is such a delay
  (`Lookaside.OutlivedExactly`).
- Nor is a cached answer always the authorizer's newest. It is as long as no two calls under its key are between miss
  and store at once (`Lookaside.NewestAnswerReturned`, `Lookaside.AloneMeansNewest`); from every state in which two are,
  some continuation returns the newer answer and then the older one (`Lookaside.OlderAnswerCanReturn`).
- The cache key is meant to stand for one token and repository path. It does exactly for requests whose text has
  none of the shapes in `CacheKey.Ambiguous`; `CacheKey.CollidesExactlyWhenAmbiguous`, `Lookaside.OwnAnswersOnly` and
  `Lookaside.AmbiguousSharesAnswers` give both directions.
- The next page is the Link header's "next" relation, which section 3 of RFC 8288 lets stand anywhere among a link's
  parameters, unquoted, in any letter case, and with several relations. For links whose parameters hold no commas,
  semicolons or inner quotes, and whose URLs hold no quotes, the code looks for the first one whose first parameter
  has the quoted value "next" and a name ending in "rel" (`LinkHeader.FindsNextOnly`), and reads its URL back
  exactly if that has no comma, no semicolon and no angle bracket at an end (`LinkHeader.NextLinkReadExactly`).
  `LinkHeader.PassedOver` and `LinkHeader.CommaMisleads` give links that are misread. The page walk is right, over
  all sites with given headers, exactly when each of them is read right (`GitHub.RightExactlyWhenReadRight`), as in
  GitHub's own form (`GitHub.RelFirstSearched`); otherwise its "no" can be a truncated search
  (`GitHub.TruncatedSearch`).
- A Retry-After of more than 9223372036 seconds overflows the 64-bit duration; `RetryDelay.RelayedExactly` has the
  exact bound.

## Model

| member | source | states |
|---|---|---|
| Service.StoredOnGitHubsWord | internal/lfs/handler.go:153-172 | Over all interleavings of requests, cache steps and store calls: every stored object was asked for by an upload Batch whose authorize call had Write on the repository its key spells, and GitHub had said that this repository takes pushes, to that call or to one whose store it read within the lifetime under the same key text; for the same token and path unless the text is ambiguous; in runs in which the HMAC takes no two texts of the requests for one |
| Service.ReturnedWasGranted | internal/lfs/handler.go:372-388 | Whatever authorize returns GitHub granted to this very call, or to one whose stored answer it read within the lifetime; in runs in which the HMAC takes no two texts of the requests for one |
| Service.GrantedCanUpload | docs/content/docs/architecture.md:44-49 | From every reachable state and at any time, a user whom GitHub grants a push has a run of authorize (after an older cached answer has expired), Batch and PUT after which Verify succeeds, unless a clashing body was uploaded before |
| Service.NoPermissionIsServed | internal/lfs/handler.go:382-387 | From every reachable state, a token of an allowed installation can be granted no permission, and that answer is stored and returned to a later call |
| Lifecycle.StepKeepsInv | internal/lfs/handler.go:157-289 | Every interleaved step (admission, HEAD, presigning and answering, upload) keeps: batches admitted with the permission they need; every answer given is what processObject makes of a size that still stands; every upload offered was issued for its own object; presigned uploads handed out only in answers to granted upload objects and bound to them; one creation per key; no stored object changed or lost |
| Lifecycle.AdmittedBatch | internal/lfs/handler.go:148-172 | A Batch enters the system exactly when it meets the rule, has a token and the permission it needs, and then works with the repository, Verify link and credentials that came with it |
| Lifecycle.StoredObjectsAreWellPlaced | internal/lfs/handler.go:266-289 | In every reachable state, even when HEAD has wrongly reported absence, each stored body hashes to the OID its key spells, is within the size limit, was created by exactly one accepted PUT, and was asked for by an upload Batch holding Write on the repository its key spells |
| Lifecycle.RepositoriesAreIsolated | internal/storage/s3store/s3store.go:147-156 | Nothing ever lies under a repository's key prefix without a Write grant on that repository |
| Lifecycle.ObjectsNeverChange | internal/storage/s3store/s3store.go:113-117 | A stored object has the same body in every later state |
| Lifecycle.IssuedFor | internal/storage/s3store/s3store.go:107-128 | Every presigned upload's key spells the repository and OID of the granted object it was issued for |
| Lifecycle.VerifyTellsTheTruth | internal/lfs/handler.go:346-363 | Verify answers an authorized writer success, 422, 404 or 503 exactly when the bucket holds the object with that size, holds another size, seems to hold none, or fails otherwise |
| Lifecycle.UploadBatchTellsTheTruth | internal/lfs/handler.go:266-289 | Over every run between an object's HEAD and its answer: an upload Batch answers exists, mismatch, upload or unavailable exactly by what the bucket held at the HEAD and whether the presigner failed; an offered upload is for the object's own key with exactly the three binding headers, plus the Verify request with the client's credentials |
| Lifecycle.DownloadBatchTellsTheTruth | internal/lfs/handler.go:247-264 | Over every such run: a download Batch answers download, mismatch, not_found or unavailable exactly by what the bucket held at the HEAD and whether the presigner failed; an offered download is a GET of the object's own key without further headers |
| Lifecycle.ToldForGood | internal/lfs/handler.go:255-289 | What a client was told holds in every later state: after exists or download the key holds the announced size, after mismatch another one, after upload the presigned request is one issued for this very object |
| Lifecycle.Convergence | docs/content/docs/architecture.md:44-49 | After a successful Verify, every Batch object for it that is looked up in any later state with the store available ends, whatever happens before its answer, as exists with neither actions nor error, or as a download of its own key, unavailable exactly if the presigner fails |
| Lifecycle.VerifyStays | docs/content/docs/architecture.md:44-49 | After a successful Verify, Verify succeeds in every later state for every writer of the repository, with the store available |
| Lifecycle.UploadThenVerify | docs/content/docs/architecture.md:46-47 | After sending the announced body to a presigned upload, accepted or refused, Verify succeeds for any writer of the repository exactly unless a body of another size already sat under the key |
| Lifecycle.UploadConverges | docs/content/docs/architecture.md:46-47 | Unless a body with the same hash and other content was uploaded before, the key then holds exactly the sender's body and Verify succeeds |
| Lifecycle.SameOidSameBody | docs/content/docs/architecture.md:34-36 | Unless bodies uploaded in the two runs clash, equal OIDs mean equal stored bodies across repositories and reachable states |
| Lifecycle.UploadIsAlwaysPossible | internal/lfs/handler.go:266-289 | From every reachable state, unless a clashing body was uploaded before, a writer holding a matching body has a run of Batch, HEAD, answer and PUT after which Verify succeeds |
| WorkerPool.StepKeepsInv | internal/lfs/handler.go:223-242 | Every step of dispatcher or worker keeps: each index sent is in one worker's hands or written, never both; no two workers hold one slot; each slot is written at most once, with a result of its own input |
| WorkerPool.ReturnsAnswers | internal/lfs/handler.go:223-242 | For every interleaving, on return each slot holds a result of its own input, each index was processed exactly once, and the results produced are the results returned |
| WorkerPool.RefinesMap | internal/lfs/handler.go:223-242 | Where processing is a function the pool computes the sequential map |
| WorkerPool.BoundedConcurrency | internal/lfs/handler.go:227-236 | At most min(concurrency, max(1, n)) jobs are in flight, and no two workers process the same one |
| WorkerPool.FullConcurrency | internal/lfs/handler.go:226-236 | Some interleaving processes min(concurrency, n) objects at once |
| WorkerPool.Progress | internal/lfs/handler.go:227-241 | No unfinished state the pool can be in is stuck, for any input length, as long as each processing ends |
| WorkerPool.StepCounts | internal/lfs/handler.go:228-241 | Every step brings the end exactly one step nearer |
| WorkerPool.EveryRunEnds | internal/lfs/handler.go:223-242 | Every run has at most 2n + 2w + 3 steps and has returned exactly when it has made that many |
| WorkerPool.NoWorkersNoProgress | internal/lfs/handler.go:70-73 | Without the default of New, a non-positive concurrency would leave the dispatcher stuck on its first send |
| WorkerPool.ProcessObjects | internal/lfs/handler.go:223-242 | Run under any scheduling, it fills the output array with the processed inputs, and ends |
| Handler.BatchConserves | internal/lfs/handler.go:171-301 | For every interleaving and every behaviour of the store, an admitted Batch returns as many objects as it was sent, in order, each echoed and in exactly one shape, and the counters rise by one per object under the labels of those shapes |
| Handler.BatchFinishes | internal/lfs/handler.go:69-78 | Whatever concurrency option was given, a Batch's pool is never stuck and its runs are bounded |
| Handler.Handler.constructor | internal/lfs/handler.go:69-79 | A positive concurrency option is kept, any other becomes sixteen |
| Handler.Handler.Batch | internal/lfs/handler.go:131-174 | A refused request gets its refusal, makes no store call and raises no Batch counter (its authorization may count a cache hit or miss); an admitted one gets, object by object, what the store's answers lead to, each counter rises by the number of its outcomes, and the store is asked exactly as `CallsCounted` says |
| Handler.CallsCounted | internal/lfs/handler.go:244-282 | The store calls of a Batch, in whatever order its workers make them: one Head per object under the Batch's repository; for a download one presigned download per object stored with its size; for an upload one presigned upload, with its size, per object not stored |
| Handler.Handler.Admit | internal/lfs/handler.go:148-169 | Validation, credentials, authorization and permission in that order; a request that fails the first two leaves the cache and its counters alone, any other leaves the cache as one look-aside does and counts one hit or miss |
| Handler.Handler.ProcessAll | internal/lfs/handler.go:171-172 | The worker pool over a Batch's objects is the sequential map |
| Handler.Handler.Authorize | internal/lfs/handler.go:372-388 | One undisturbed look-aside: the result and the cache contents are those of the specification, and one of the two counters rises by one |
| Handler.Handler.AskAndStore | internal/lfs/handler.go:382-387 | On a miss the authorizer's answer is returned, and stored exactly if it is not an error |
| Handler.AnswerIsRemembered | internal/lfs/handler.go:372-388 | Asked again within the lifetime of an answer, the same answer comes back whatever the authorizer would say |
| Handler.UndisturbedRun | internal/lfs/handler.go:372-388 | Among concurrent calls, one whose steps no other interrupts returns and stores exactly what the sequential look-aside does, so what is proved of it holds of such calls |
| Handler.ErrorsAreNotRemembered | internal/lfs/handler.go:382-385 | An error leaves nothing new in the cache, and the next call asks the authorizer again |
| Protocol.ValidateBatch | internal/lfs/handler.go:176-208 | The one-pass validation accepts exactly the requests that meet the declarative rule, and otherwise reports the earliest complaint |
| Protocol.CheckInOnePass | internal/lfs/handler.go:197-207 | The loop with its map of seen sizes reports the earliest object that is invalid or disagrees with an earlier one |
| Protocol.ValidateObject | internal/lfs/handler.go:210-221 | Accepts exactly 64 lowercase hexadecimal characters and a size between 0 and the limit |
| Protocol.EarliestFault | internal/lfs/handler.go:197-207 | The objects' complaint is about the earliest one at fault, by index, and names its fault: bad OID, bad size, or another size than an earlier object with its OID |
| Protocol.BatchFault | internal/lfs/handler.go:176-207 | Which complaint a request gets: operation, hash, transfers, number of objects, in this order, then the earliest object at fault |
| Protocol.CheckBatchMeaning | internal/lfs/handler.go:176-221 | Acceptance is the declarative rule, and every accepted OID makes a storage key for every repository |
| Protocol.PresignMatters | internal/lfs/handler.go:257-279 | The presigner is called exactly where some two of its answers would lead to different outcomes |
| Protocol.OneShapeEach | internal/lfs/handler.go:244-295 | Each answer echoes OID and size, is marked authenticated, and has exactly one of the six shapes, with its code and message, the one its counter label names |
| Protocol.AdmittedExactly | internal/lfs/handler.go:148-169 | A Batch is admitted, for repository r, exactly when it meets the rule, has a token, and is authorized for r with the permission of its operation |
| Protocol.RefusedAs | internal/lfs/handler.go:148-169 | Each of 422, 401, 403, 404, 429 and 503 is answered exactly in its own cases; an unreadable repository looks absent; with 429 alone comes the time to wait, a minute or the forge's delay to the nearest second |
| Protocol.VerifiedExactly | internal/lfs/handler.go:329-363 | Verify succeeds exactly for a valid object, with a token, for a holder of Write, when the store holds it with its size under the authorized repository |
| Protocol.UnverifiedAs | internal/lfs/handler.go:329-363 | Each of Verify's refusals, 422, 401, 403, 404, 429 with the time to wait, and 503, is answered exactly in its own cases |
| Protocol.ForgeErrorsAnswered | internal/lfs/handler.go:425-447 | Each authorizer error has one status, and exactly the rate limits carry a Retry-After, always a positive decimal |
| Protocol.RetryAfterSurvives | internal/lfs/handler.go:157-160 | A Retry-After of n seconds from GitHub reaches a Batch's client as the same decimal exactly for n up to 9223372036 |
| Protocol.VerifyAgreesWithBatch | internal/lfs/handler.go:346-363 | In one and the same state Verify succeeds exactly when an upload Batch answers that the object exists |
| RetryDelay.RelayedExactly | internal/forge/github/github.go:313-323 | n seconds survive parsing, 64-bit multiplication, rounding and emission exactly when they fit a duration (section 10.2.3 of RFC 9110) |
| RetryDelay.DelayIsProduct | internal/forge/github/github.go:315-316 | A positive Retry-After of any size becomes a duration by multiplication modulo 2^64 |
| RetryDelay.EmittedRange | internal/lfs/handler.go:429-433 | The emitted value is always between 1 and 9223372036 |
| RetryDelay.EmittedRounded | internal/lfs/handler.go:429-433 | A positive delay is emitted rounded to whole seconds, halves up, at least 1 and at most the largest whole duration; any other, or none, as a minute |
| RetryDelay.EmittedClosely | internal/lfs/handler.go:433-433 | The emitted seconds are within half a second of a positive delay exactly between half a second and half a second past the largest whole one |
| RetryDelay.ResetRelayed | internal/forge/github/github.go:317-321 | Without a usable Retry-After the delay is the time to the reset if that is ahead, saturated, and otherwise a minute |
| RetryDelay.ResetWraps | internal/forge/github/github.go:317-321 | A reset time so large that Go's second count wraps yields the default minute |
| RetryDelay.NothingToRelay | internal/forge/github/github.go:313-323 | With neither header usable the delay is a minute |
| AuthCache.New | internal/authcache/cache.go:54-69 | A valid, empty cache comes out exactly for positive capacity and lifetime and a secret; otherwise the error says which was wrong |
| AuthCache.Cache.Get | internal/authcache/cache.go:72-88 | Map and ring stay in bijection, and answer and contents are those of the recency sequence, under the HMAC of token, NUL, folded owner, slash and folded repository |
| AuthCache.Cache.Put | internal/authcache/cache.go:91-108 | Map and ring stay in bijection and within capacity, and the contents are those of the recency sequence, under the HMAC of the same text |
| AuthCache.ServesSameRequestOnly | internal/authcache/cache.go:72-118 | What was put for a request of unambiguous text is served, until it expires, to exactly the requests for the same token and path |
| AuthCache.Cache.Refresh | internal/authcache/cache.go:96-101 | A cached key is overwritten in place and moved to the front |
| AuthCache.Cache.Insert | internal/authcache/cache.go:103-107 | A new key goes in front, and the last entry goes when the capacity is exceeded |
| AuthCache.Cache.Remove | internal/authcache/cache.go:120-126 | Without an element nothing changes; otherwise it leaves the map and the ring together, and nothing else changes |
| AuthCache.Cache.ContentsBounded | internal/authcache/cache.go:105-107 | The contents always have distinct keys and at most `capacity` entries |
| LinkedList.List.PushFront | internal/authcache/cache.go:103-103 | A new element is linked in at the front of the ring, which stays doubly linked and closed |
| LinkedList.List.MoveToFront | internal/authcache/cache.go:86-86 | An element is relinked at the front, the others keep their order |
| LinkedList.List.Remove | internal/authcache/cache.go:125-125 | An element is unlinked, the others keep their order |
| LinkedList.List.Back | internal/authcache/cache.go:106-106 | The sentinel's predecessor is the last element, and there is none exactly in an empty list |
| Lru.GetMeaning | internal/authcache/cache.go:72-88 | A Get leaves the other entries alone, keeps its own key exactly when it answers, and never extends its expiry |
| Lru.PutMeaning | internal/authcache/cache.go:91-108 | A Put leaves its entry in front of the others in their order, as many as fit: only the least recently used can go |
| Lru.ApplyKeepsBounded | internal/authcache/cache.go:72-108 | Every operation keeps keys distinct and the bound, and a Put never evicts what it has just written |
| Lru.OneExtraEntry | internal/authcache/cache.go:72-108 | On one trace the caches of capacity C and C + 1 differ by at most one left-out entry, all else equal and in order |
| Lru.LargerCacheKeepsHits | internal/authcache/cache.go:72-108 | After any trace, whatever a cache answers, every larger one answers too, with the same value |
| Lru.Retention | internal/authcache/cache.go:86-107 | An entry put or hit is still answered while unexpired and fewer than `capacity` other keys were put or hit since |
| Lru.RetentionInTrace | internal/authcache/cache.go:86-107 | The same for any operation of any trace from the empty cache under a non-decreasing clock |
| Lru.RetentionIsExact | internal/authcache/cache.go:86-107 | While nothing expires, a key survives exactly as long as fewer than `capacity` other keys are put or hit |
| CacheKey.PreimageUnambiguous | internal/authcache/cache.go:110-118 | For tokens without NUL and owners without a slash, preimages are equal exactly for the same token and case-folded path |
| CacheKey.CollidesExactlyWhenAmbiguous | internal/authcache/cache.go:110-118 | A request shares its preimage with a different request exactly when it has one of four shapes that can be checked on it alone |
| CacheKey.KeyIdentifies | internal/authcache/cache.go:110-118 | Where the HMAC keeps their two texts apart and the text of one is unambiguous, two requests have one key exactly if they are for the same token and case-folded path |
| Lookaside.RunKeepsInv | internal/lfs/handler.go:372-388 | In every interleaving each cached entry is the latest store under its key, with no miss since, expiring that store's time plus the lifetime; each call is answered at most once, after missing; and each stored value was first answered to its own call |
| Lookaside.BoundedStaleness | internal/lfs/handler.go:372-388 | Every returned authorization was answered to the call itself, or was read less than the lifetime after the latest store under the same key text, with no miss in between, and that store's own call had it from the authorizer; for runs in which the HMAC takes no two texts of the requests for one |
| Lookaside.OwnAnswersOnly | internal/lfs/handler.go:372-388 | A request of unambiguous text only ever gets answers given for the same token and case-folded path |
| Lookaside.AmbiguousSharesAnswers | internal/lfs/handler.go:372-388 | For every other request some run returns an answer that was given only for a different request |
| Lookaside.AgeBounded | internal/authcache/cache.go:98-103 | A hit's age, from the authorizer's answer, is below the lifetime plus the delay from the answer to its store |
| Lookaside.OutlivedExactly | internal/authcache/cache.go:98-103 | While a stored answer is cached, some continuation returns it a lifetime or more after the authorizer gave it, exactly if it was stored later than it was given |
| Lookaside.PositiveExactly | internal/authcache/cache.go:90-108 | Every cached entry is Read or Write exactly as long as no latest store under a key still present put an answer of no permission |
| Lookaside.SupersededExactly | internal/lfs/handler.go:372-388 | A hit returns an answer older than the authorizer's newest exactly when another call under its key had missed before the store that it reads and was answered between that store's call and the hit |
| Lookaside.NewestAnswerReturned | internal/lfs/handler.go:372-388 | As long as no two calls under one key overlapped between miss and store, every hit under it returns the authorizer's latest answer |
| Lookaside.AloneMeansNewest | internal/lfs/handler.go:372-388 | The same for every run in none of whose states two calls under the key are between miss and store |
| Lookaside.OlderAnswerCanReturn | internal/lfs/handler.go:382-387 | From every reachable state in which two calls under one key are between miss and store, whatever the authorizer answers, some continuation returns the newer answer in one hit and the older one in a later hit |
| Lookaside.CallsCanOverlap | internal/lfs/handler.go:372-388 | Such states are reachable for every request |
| GitHub.UserCanAccessInstallation | internal/forge/github/github.go:207-230 | For any page graph, cycles included: true, false and each error are returned exactly when the chain of the first hundred pages says so, as the code reads the Link headers |
| GitHub.WalkLimits | internal/forge/github/github.go:208-229 | The walk starts at the user's installations, a hundred to a page, and after a hundred pages answers that GitHub is unavailable |
| GitHub.RightExactlyWhenReadRight | internal/forge/github/github.go:207-230 | Over all sites with given Link headers and all targets, the walk answers as the headers are meant exactly when the code reads each of them as it is meant |
| GitHub.ReadAlikeAnswersAlike | internal/forge/github/github.go:207-230 | On one site the walk answers as the headers are meant if the headers on the way are read as they are meant |
| GitHub.RelFirstSearched | internal/forge/github/github.go:325-334 | On sites whose links have rel first, quoted and alone, with readable next URLs, the walk follows the standard's next links, so false is no truncated search (section 3 of RFC 8288) |
| GitHub.TruncatedSearch | internal/forge/github/github.go:328-328 | With a next link that the code passes over, the target is on the next page and the answer is false |
| GitHub.OneAnswerOnly | internal/forge/github/github.go:207-230 | The page chain admits only one of the three answers, and only one error |
| GitHub.Authorize | internal/forge/github/github.go:132-188 | An authorization comes out exactly when GitHub grants it, under the whole chain of conditions, with the repository's identity and the stronger permission; every other outcome has its own error, and later requests are made only after earlier checks pass |
| LinkHeader.ParseNext | internal/forge/github/github.go:325-334 | The loop returns the target of the first part whose first parameter names the next relation |
| LinkHeader.NextLinkReadExactly | internal/forge/github/github.go:325-334 | From a header of any links with plain parameters and any unquoted URLs, the URL of the first link whose first parameter says next is read exactly if it is readable: no comma, no semicolon, no angle bracket at an end; without such a link nothing is read |
| LinkHeader.WrittenReadsBack | internal/forge/github/github.go:326-331 | From a header of one link with any URL, the URL is read back exactly when the first parameter says next and the URL is readable |
| LinkHeader.StandardLinkRead | internal/forge/github/github.go:325-334 | From headers whose links have rel first, quoted and alone, the standard's next URL is read, exactly if it is readable |
| LinkHeader.FindsNextOnly | internal/forge/github/github.go:328-328 | A parameter passes the test exactly when it is quoted, its value is the single word next and its name ends in rel |
| LinkHeader.FoundWithRelFirst | internal/forge/github/github.go:328-328 | Where rel comes first, a link is taken for next exactly when it is the standard's next link with the quoted value next alone (section 3.3 of RFC 8288) |
| LinkHeader.PassedOver | internal/forge/github/github.go:328-328 | Four shapes of next links of the standard from which nothing is read: rel second, unquoted, in capitals, or with another relation |
| LinkHeader.CommaMisleads | internal/forge/github/github.go:326-326 | A comma in a quoted value before rel makes the code read the rest of that value as the URL |
| AppToken.Signer.SignedAppJWT | internal/forge/github/github.go:336-356 | For any signer: the claims handed to it name the App, a time a minute back and the recorded expiry nine minutes ahead, to the whole second; returned token and kept state are those of the specification |
| AppToken.ClaimsMadeFor | internal/forge/github/github.go:343-348 | Those conditions determine the claims |
| AppToken.KeptIsLastSigned | internal/forge/github/github.go:336-356 | After any calls the kept token is the one signed last, due nine minutes after its signing |
| AppToken.ReturnedIsCurrent | internal/forge/github/github.go:339-348 | Every returned token is the one signed last, has its recorded expiry more than a minute ahead, and exactly ten minutes between iat and exp (sections 4.1.6 and 4.1.4 of RFC 7519) |
| AppToken.SigningsSpaced | internal/forge/github/github.go:340-343 | Successive signings are at least eight minutes apart, even if the clock runs backwards |
| AppToken.FewSignings | internal/forge/github/github.go:336-356 | Of any calls, under any clock, at most floor(T / 8 min) + 1 sign within any span of T |
| S3Store.HeadTellsTheTruth | internal/storage/s3store/s3store.go:90-104 | Head says not found exactly when the provider is up without the key or its error reads as absence, unavailable exactly for its other errors, and a size exactly when the provider is up and holds it |
| S3Store.ActionHeaders | internal/storage/s3store/s3store.go:186-194 | The header loop collects the first value of every signed header except Host |
| S3Store.UploadHeaders | internal/storage/s3store/s3store.go:113-127 | An upload action requires exactly the length, the payload hash and If-None-Match |
| S3Store.UploadBinds | internal/storage/s3store/s3store.go:107-128 | The provider accepts a presigned upload exactly for bodies of the given size hashing to the OID, while the repository's own key is absent |
| ObjectKey.KeyAccepts | internal/storage/s3store/s3store.go:148-154 | A key exists exactly for OIDs of 64 lowercase hexadecimal characters |
| ObjectKey.KeyInvertible | internal/storage/s3store/s3store.go:148-156 | A parser recovers (ID, OID) from exactly the keys built from them, over every int64 ID |
| ObjectKey.KeysStayInTheirRepository | internal/storage/s3store/s3store.go:155-155 | A key lies under a repository's prefix exactly when it was built for that repository |
| InstallationIds.Parse | internal/config/config.go:173-194 | The loop computes the list's specification, and success means an allowlist with one ID per comma-separated part |
| InstallationIds.ParseListMeaning | internal/config/config.go:173-194 | Parsing yields ids exactly when the parts are, one for one and up to white space, decimals of those IDs, and they form an allowlist |
| InstallationIds.ParseListRoundTrip | internal/config/config.go:173-194 | Every allowlist, written with any padding, parses back to itself |
| InstallationIds.Validate | internal/config/config.go:196-211 | Accepts exactly the non-empty lists of distinct positive IDs, and otherwise reports the earliest offender |
| InstallationIds.EarliestId | internal/config/config.go:196-211 | The complaint about a list is that it is empty, or about its earliest ID that is not positive or repeats an earlier one |
| InstallationIds.RefusedFor | internal/config/config.go:173-194 | A text is refused for being blank, for its earliest part that is no positive decimal, or, if all are, for its earliest repetition |
| InstallationIds.AllowedInstallationIDSet | internal/forge/github/github.go:190-205 | Accepts exactly the lists that the configuration accepts, and returns the same members |
| GoText.ParseFormat | internal/storage/s3store/s3store.go:155-155 | Printing any int64 in decimal and parsing it back is the identity |
| GoText.ParseIntExactly | internal/config/config.go:185-185 | A text parses to n exactly when it is an optional sign and digits whose values by position add up to n |
| GoText.FormatIsShortest | internal/storage/s3store/s3store.go:155-155 | The printed decimal has no leading zero and a sign only for negative numbers |
| GoText.TrimSpaceMeaning | internal/config/config.go:181-181 | Trimming removes white space and nothing else, and leaves none at either end |

## Left out

- HTTP plumbing: headers other than those named above, JSON, routing, request IDs, panic recovery, body limits; requests start decoded.
- Network, SigV4, RSA and PEM internals, randomness: replaced by parameters or arbitrary functions.
- Expiry of presigned URLs: uploads stay usable for ever, so every expiry is covered and none is needed.
- Startup validation of the App and the bucket, URL and listener checks of the configuration, `Load`: straight-line checks.
- Context cancellation and panics inside workers.
- The other metrics (GitHub, S3, HTTP, Verify results) and all logging.
- Percent-escaping of repository paths in request URLs and in the Verify link, which is a parameter here.
- The owner tag of list elements, and the pointer from an element to its entry: an element carries the entry itself.
- Handler.Handler.Authorize: one call undisturbed by others; interleaved calls are the subject of `Lookaside`.
- Handler.Handler.Batch: the store does not change during the call; a changing store is the subject of `BatchConserves` and `Lifecycle`.
- LinkHeader.NextLinkReadExactly: links whose parameters hold commas, semicolons or inner quotes, and URLs with double quotes, which RFC 3986 does not allow.
- Letter case outside ASCII, and byte strings that are not valid UTF-8.
