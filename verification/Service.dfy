/** The parts put together: GitHub's answers, the authorization cache shared by concurrent requests, and
    the life of objects in the bucket. A Batch is admitted with what its own authorize call returned,
    and the authorizer gives only what GitHub grants. All steps of all requests interleave freely. */
module Service {
  import opened Wrappers
  import opened GoText
  import opened ObjectKey
  import opened Forge
  import CacheKey
  import GitHub
  import Lifecycle
  import LinkHeader
  import Lookaside
  import Lru
  import Protocol

  datatype Config = Config(clientID: string, allowed: set<int64>, cache: Lookaside.Settings, world: Lifecycle.World)

  /** Verify and the requests that are refused before they reach the store leave no trace here beyond
      their authorize calls. `views` holds what GitHub said to the calls it granted; Batch b was
      admitted for authorize call callers[b]. */
  datatype State = State(auth: Lookaside.System, objects: Lifecycle.State, views: map<nat, GitHub.GitHubView>,
                         callers: seq<nat>)

  const INITIAL := State(Lookaside.INITIAL, Lifecycle.EMPTY, map[], [])

  datatype Step =
    | Authorizing(auth: Lookaside.Step)
    | Granted(call: nat, view: GitHub.GitHubView, authorization: Authorization, now: int)
    | Begin(call: nat, input: Protocol.BatchRequest, verifyUrl: string, credentials: string)
    | Storing(store: Lifecycle.Step)

  predicate HasEnded(s: State, c: nat) {
    c < |s.auth.calls| && (s.auth.calls[c].phase.Returned? || s.auth.calls[c].phase.Failed?)
  }

  /** What authorize returned to call c. */
  function ResultOf(s: State, c: nat): Result<Authorization, Error>
    requires HasEnded(s, c)
  {
    match s.auth.calls[c].phase
    case Returned(value) => Success(value)
    case Failed(error) => Failure(error)
  }

  ghost predicate Enabled(cfg: Config, s: State, step: Step) {
    match step
    case Authorizing(a) => Lookaside.Enabled(s.auth, a) && !(a.Reply? && a.reply.Success?)
    case Granted(c, view, a, now) =>
      && Lookaside.Enabled(s.auth, Lookaside.Reply(c, Success(a), now))
      && GitHub.Grants(cfg.clientID, cfg.allowed, s.auth.calls[c].request.token, view, a)
    case Begin(c, _, _, _) => HasEnded(s, c) && c !in s.callers
    case Storing(o) => Lifecycle.Enabled(s.objects, o) && !o.Admit?
  }

  ghost function Apply(cfg: Config, s: State, step: Step): State
    requires Enabled(cfg, s, step)
  {
    match step
    case Authorizing(a) => s.(auth := Lookaside.Apply(cfg.cache, s.auth, a))
    case Granted(c, view, a, now) =>
      s.(auth := Lookaside.Apply(cfg.cache, s.auth, Lookaside.Reply(c, Success(a), now)), views := s.views[c := view])
    case Begin(c, input, verifyUrl, credentials) =>
      var objects := Lifecycle.Apply(cfg.world, s.objects,
                                     Lifecycle.Admit(input, true, ResultOf(s, c), verifyUrl, credentials));
      s.(objects := objects,
         callers := if |objects.batches| > |s.objects.batches| then s.callers + [c] else s.callers)
    case Storing(o) => s.(objects := Lifecycle.Apply(cfg.world, s.objects, o))
  }

  ghost predicate Leads(cfg: Config, s: State, steps: seq<Step>, t: State)
    decreases |steps|
  {
    if steps == [] then s == t
    else Enabled(cfg, s, steps[0]) && Leads(cfg, Apply(cfg, s, steps[0]), steps[1..], t)
  }

  ghost predicate Reachable(cfg: Config, s: State) {
    exists steps :: Leads(cfg, INITIAL, steps, s)
  }

  // ----- what every run keeps

  /** Every Batch works with what its own call returned. */
  ghost predicate Linked(s: State) {
    && |s.callers| == |s.objects.batches|
    && forall b :: 0 <= b < |s.callers| ==>
         && s.callers[b] < |s.auth.calls|
         && s.auth.calls[s.callers[b]].phase == Lookaside.Returned(s.objects.batches[b].authorization)
  }

  /** Event q is an answer that GitHub granted. */
  ghost predicate GrantedAt(cfg: Config, s: State, q: nat)
    requires q < |s.auth.log| && s.auth.log[q].Answered?
  {
    var c := s.auth.log[q].call;
    && c < |s.auth.calls| && c in s.views
    && GitHub.Grants(cfg.clientID, cfg.allowed, s.auth.calls[c].request.token, s.views[c], s.auth.log[q].value)
  }

  ghost predicate AnswersGranted(cfg: Config, s: State) {
    forall q :: 0 <= q < |s.auth.log| && s.auth.log[q].Answered? ==> GrantedAt(cfg, s, q)
  }

  ghost predicate Inv(cfg: Config, s: State) {
    && Lookaside.Reachable(cfg.cache, s.auth) && Lifecycle.Reachable(cfg.world, s.objects)
    && Linked(s) && AnswersGranted(cfg, s)
  }

  /** An object step leaves the admitted Batches as they were. */
  lemma StoringKeepsLinks(cfg: Config, s: State, step: Step)
    requires Inv(cfg, s) && Enabled(cfg, s, step) && step.Storing?
    ensures Inv(cfg, Apply(cfg, s, step))
  {
    var t := Apply(cfg, s, step);
    Lifecycle.ReachableInv(cfg.world, s.objects);
    Lifecycle.StepKeepsInv(cfg.world, s.objects, step.store);
    ReachObjects(cfg, s.objects, step.store);
    hide Lifecycle.Inv, Lifecycle.Enabled, Lifecycle.Apply;
    assert Linked(t);
    assert forall q :: 0 <= q < |s.auth.log| && s.auth.log[q].Answered? ==>
             (GrantedAt(cfg, t, q) <==> GrantedAt(cfg, s, q));
  }

  lemma ReachObjects(cfg: Config, o: Lifecycle.State, step: Lifecycle.Step)
    requires Lifecycle.Reachable(cfg.world, o) && Lifecycle.Enabled(o, step)
    ensures Lifecycle.Reachable(cfg.world, Lifecycle.Apply(cfg.world, o, step))
  {
    Lifecycle.OneStep(cfg.world, o, step);
    Lifecycle.ReachableExtends(cfg.world, o, [step], Lifecycle.Apply(cfg.world, o, step));
  }

  lemma BeginKeepsLinks(cfg: Config, s: State, step: Step)
    requires Inv(cfg, s) && Enabled(cfg, s, step) && step.Begin?
    ensures Inv(cfg, Apply(cfg, s, step))
  {
    var t, result := Apply(cfg, s, step), ResultOf(s, step.call);
    ReachObjects(cfg, s.objects, Lifecycle.Admit(step.input, true, result, step.verifyUrl, step.credentials));
    assert Linked(t);
    assert forall q :: 0 <= q < |s.auth.log| && s.auth.log[q].Answered? ==>
             (GrantedAt(cfg, t, q) <==> GrantedAt(cfg, s, q));
  }

  /** A step of authorize leaves ended calls, requests and past events alone. */
  lemma AuthStepKeeps(cfg: Config, a: Lookaside.System, step: Lookaside.Step)
    requires Lookaside.Enabled(a, step)
    ensures var t := Lookaside.Apply(cfg.cache, a, step);
            && Lookaside.Later(a, t)
            && (forall c :: 0 <= c < |a.calls| && a.calls[c].phase.Returned? ==> t.calls[c] == a.calls[c])
            && (forall q :: |a.log| <= q < |t.log| && t.log[q].Answered? ==>
                  && step.Reply? && step.reply.Success?
                  && t.log[q] == Lookaside.Answered(step.call, step.reply.value, step.now))
  {}

  lemma AuthorizingKeepsInv(cfg: Config, s: State, step: Step)
    requires Inv(cfg, s) && Enabled(cfg, s, step) && (step.Authorizing? || step.Granted?)
    requires cfg.cache.Valid()
    ensures Inv(cfg, Apply(cfg, s, step))
  {
    var t := Apply(cfg, s, step);
    var a := if step.Authorizing? then step.auth else Lookaside.Reply(step.call, Success(step.authorization), step.now);
    AuthStepKeeps(cfg, s.auth, a);
    Lookaside.Reach(cfg.cache, s.auth, a, t.auth);
    UnansweredWhileAsking(cfg, s, step);
    hide Lookaside.Apply, Lookaside.Reachable, Lifecycle.Reachable, GitHub.Grants;
    forall q | 0 <= q < |t.auth.log| && t.auth.log[q].Answered? ensures GrantedAt(cfg, t, q) {
      if q < |s.auth.log| {
        assert GrantedAt(cfg, s, q);
      }
    }
  }

  /** A call that is granted now was not answered before, so its view is its own. */
  lemma UnansweredWhileAsking(cfg: Config, s: State, step: Step)
    requires cfg.cache.Valid() && Inv(cfg, s) && Enabled(cfg, s, step)
    ensures step.Granted? ==>
              forall q :: 0 <= q < |s.auth.log| && s.auth.log[q].Answered? ==> s.auth.log[q].call != step.call
  {
    if step.Granted? {
      var steps :| Lookaside.Leads(cfg.cache, Lookaside.INITIAL, steps, s.auth);
      Lookaside.RunKeepsInv(cfg.cache, Lookaside.INITIAL, steps, s.auth);
      assert Lookaside.SoundCall(s.auth, step.call);
    }
  }

  lemma {:induction false} RunKeepsInv(cfg: Config, s: State, steps: seq<Step>, t: State)
    requires cfg.cache.Valid() && Inv(cfg, s) && Leads(cfg, s, steps, t)
    ensures Inv(cfg, t)
    decreases |steps|
  {
    if steps != [] {
      match steps[0] {
        case Authorizing(_) => AuthorizingKeepsInv(cfg, s, steps[0]);
        case Granted(_, _, _, _) => AuthorizingKeepsInv(cfg, s, steps[0]);
        case Begin(_, _, _, _) => BeginKeepsLinks(cfg, s, steps[0]);
        case Storing(_) => StoringKeepsLinks(cfg, s, steps[0]);
      }
      RunKeepsInv(cfg, Apply(cfg, s, steps[0]), steps[1..], t);
    }
  }

  lemma ReachableInv(cfg: Config, s: State)
    requires cfg.cache.Valid() && Reachable(cfg, s)
    ensures Inv(cfg, s)
  {
    var steps :| Leads(cfg, INITIAL, steps, s);
    assert Lookaside.Leads(cfg.cache, Lookaside.INITIAL, [], Lookaside.INITIAL);
    assert Lifecycle.Leads(cfg.world, Lifecycle.EMPTY, [], Lifecycle.EMPTY);
    RunKeepsInv(cfg, INITIAL, steps, s);
  }

  // ----- the main result

  /** Call d had the authorization from GitHub, and call c has it from d: it is d itself, or it read
      what d stored under its own key text less than the lifetime before. */
  ghost predicate HasFrom(cfg: Config, s: State, c: nat, d: nat, a: Authorization)
    requires c < |s.auth.calls|
  {
    && d < |s.auth.calls| && d in s.views
    && Lookaside.AnsweredBefore(s.auth, d, a, |s.auth.log|)
    && GitHub.Grants(cfg.clientID, cfg.allowed, s.auth.calls[d].request.token, s.views[d], a)
    && (d == c || exists p: nat, r: nat ::
                    Lookaside.ReadFrom(cfg.cache, s.auth, c, a, p, r) && s.auth.log[p].call == d)
  }

  /** Whatever authorize returns was granted by GitHub, to this call or to one whose store it read. */
  lemma ReturnedWasGranted(cfg: Config, s: State, c: nat) returns (d: nat)
    requires cfg.cache.Valid() && Reachable(cfg, s) && Lookaside.NoMacClash(cfg.cache, s.auth)
    requires c < |s.auth.calls| && s.auth.calls[c].phase.Returned?
    ensures HasFrom(cfg, s, c, d, s.auth.calls[c].phase.value)
  {
    ReachableInv(cfg, s);
    var a := s.auth.calls[c].phase.value;
    Lookaside.BoundedStaleness(cfg.cache, s.auth, c);
    d := c;
    if !Lookaside.AnsweredBefore(s.auth, c, a, |s.auth.log|) {
      var p: nat, r: nat :| Lookaside.ReadFrom(cfg.cache, s.auth, c, a, p, r);
      d := s.auth.log[p].call;
      assert Lookaside.AnsweredBefore(s.auth, d, a, p);
    }
    var q :| 0 <= q < |s.auth.log| && Lookaside.GaveAnswer(s.auth, q, d, a);
    assert Lookaside.GaveAnswer(s.auth, q, d, a);
    assert GrantedAt(cfg, s, q);
    hide GitHub.Grants, Lookaside.Reachable;
  }

  /** GitHub let the bearer of call d's token push to this repository. */
  ghost predicate MayPush(cfg: Config, s: State, d: nat, repositoryID: int64) {
    && d < |s.auth.calls| && d in s.views
    && var view := s.views[d];
    && "ghu_" <= s.auth.calls[d].request.token && GitHub.Admissible(cfg.clientID, cfg.allowed, view)
    && GitHub.OnSomePage(view.pages, LinkHeader.NextOf, view.installation.value.id)
    && view.repository.Success? && view.repository.value.id == repositoryID > 0 && view.repository.value.push
    && view.repository.value.fullName != ""
  }

  /** Every stored object is there on GitHub's word. Its key spells a repository and an OID; an upload
      Batch asked for it; and GitHub had said that the repository takes pushes, to the authorize call of
      that very Batch or to one whose stored answer that call read within the lifetime, under the same
      key text: for the same token and path, unless the text is ambiguous. */
  lemma StoredOnGitHubsWord(cfg: Config, s: State, key: string) returns (b: nat, d: nat)
    requires cfg.cache.Valid() && Reachable(cfg, s) && Lookaside.NoMacClash(cfg.cache, s.auth)
    requires key in s.objects.bucket
    ensures ParseKey(key).Some? && |s.callers| == |s.objects.batches|
    ensures var (repositoryID, oid) := ParseKey(key).value;
            && Lifecycle.GrantedUpload(s.objects, b, repositoryID, oid, |s.objects.bucket[key]|)
            && cfg.world.hash(s.objects.bucket[key]) == oid
            && MayPush(cfg, s, d, repositoryID)
    ensures s.callers[b] < |s.auth.calls|
    ensures HasFrom(cfg, s, s.callers[b], d, s.objects.batches[b].authorization)
    ensures var request := s.auth.calls[s.callers[b]].request;
            && CacheKey.Preimage(s.auth.calls[d].request) == CacheKey.Preimage(request)
            && (!CacheKey.Ambiguous(request) ==> CacheKey.SameRequest(s.auth.calls[d].request, request))
  {
    ReachableInv(cfg, s);
    Lifecycle.StoredObjectsAreWellPlaced(cfg.world, s.objects, key);
    var (repositoryID, oid) := ParseKey(key).value;
    b :| Lifecycle.GrantedUpload(s.objects, b, repositoryID, oid, |s.objects.bucket[key]|);
    var c := s.callers[b];
    d := ReturnedWasGranted(cfg, s, c);
    CacheKey.CollidesExactlyWhenAmbiguous(s.auth.calls[c].request);
    hide ParseKey, Lookaside.Reachable, Lifecycle.Reachable, CacheKey.Ambiguous, CacheKey.Preimage;
  }

  // ----- what can always be reached

  lemma FirstStep(cfg: Config, s: State, step: Step, rest: seq<Step>, t: State)
    requires Enabled(cfg, s, step) && Leads(cfg, Apply(cfg, s, step), rest, t)
    ensures Leads(cfg, s, [step] + rest, t)
  {
    assert ([step] + rest)[0] == step && ([step] + rest)[1..] == rest;
  }

  /** A new call misses, GitHub grants it this authorization, and it stores it. */
  ghost function AfterAsking(cfg: Config, s: State, request: Request, view: GitHub.GitHubView, a: Authorization,
                             now: int): State
  {
    var c, key := |s.auth.calls|, cfg.cache.Key(request);
    var missed := Lru.AfterGet(s.auth.cache, key, now);
    s.(auth := Lookaside.System(
         Lru.AfterPut(missed, cfg.cache.capacity, Lru.Entry(key, a, now + cfg.cache.ttl)),
         s.auth.calls + [Lookaside.Call(request, Lookaside.Returned(a))],
         s.auth.log + [Lookaside.Missed(c, now), Lookaside.Answered(c, a, now), Lookaside.Stored(c, a, now)]),
       views := s.views[c := view])
  }

  lemma AskThen(cfg: Config, s: State, request: Request, view: GitHub.GitHubView, a: Authorization, now: int,
                rest: seq<Step>, t: State) returns (steps: seq<Step>)
    requires GitHub.Grants(cfg.clientID, cfg.allowed, request.token, view, a)
    requires Lru.Answer(s.auth.cache, cfg.cache.Key(request), now) == None
    requires Leads(cfg, AfterAsking(cfg, s, request, view, a, now), rest, t)
    ensures Leads(cfg, s, steps, t)
  {
    hide GitHub.Grants, Lookaside.Settings.Key, Leads;
    var c, calls := |s.auth.calls|, s.auth.calls;
    var looking, asking := Lookaside.Call(request, Lookaside.Looking), Lookaside.Call(request, Lookaside.Asking);
    var holding := Lookaside.Call(request, Lookaside.Phase.Storing(a));
    var missed := Lru.AfterGet(s.auth.cache, cfg.cache.Key(request), now);
    var log1 := s.auth.log + [Lookaside.Missed(c, now)];
    var log2 := log1 + [Lookaside.Answered(c, a, now)];
    var s1 := s.(auth := Lookaside.System(s.auth.cache, calls + [looking], s.auth.log));
    var s2 := s.(auth := Lookaside.System(missed, calls + [asking], log1));
    var s3 := s.(auth := Lookaside.System(missed, calls + [holding], log2), views := s.views[c := view]);
    var arrive, look := Authorizing(Lookaside.Arrive(request)), Authorizing(Lookaside.Lookup(c, now));
    var store := Authorizing(Lookaside.Store(c, now));
    assert Apply(cfg, s, arrive) == s1;
    assert Apply(cfg, s1, look) == s2;
    assert Apply(cfg, s2, Granted(c, view, a, now)) == s3;
    assert Apply(cfg, s3, store) == AfterAsking(cfg, s, request, view, a, now);
    FirstStep(cfg, s3, store, rest, t);
    FirstStep(cfg, s2, Granted(c, view, a, now), [store] + rest, t);
    FirstStep(cfg, s1, look, [Granted(c, view, a, now)] + ([store] + rest), t);
    steps := [arrive] + ([look] + ([Granted(c, view, a, now)] + ([store] + rest)));
    FirstStep(cfg, s, arrive, [look] + ([Granted(c, view, a, now)] + ([store] + rest)), t);
  }

  /** Object steps of the bucket's own model, taken here. */
  function Stores(steps: seq<Lifecycle.Step>): seq<Step> {
    seq(|steps|, i requires 0 <= i < |steps| => Storing(steps[i]))
  }

  lemma {:induction false} StoresLead(cfg: Config, s: State, steps: seq<Lifecycle.Step>, objects: Lifecycle.State)
    requires Lifecycle.Leads(cfg.world, s.objects, steps, objects)
    requires forall i :: 0 <= i < |steps| ==> !steps[i].Admit?
    ensures Leads(cfg, s, Stores(steps), s.(objects := objects))
    decreases |steps|
  {
    if steps != [] {
      assert Stores(steps)[1..] == Stores(steps[1..]);
      StoresLead(cfg, Apply(cfg, s, Storing(steps[0])), steps[1..], objects);
    }
  }

  /** Whatever the state and the time: whom GitHub grants a push, that user can authorize (once an older
      cached answer has expired), send a Batch and a PUT, and then finds Verify succeeding, unless a
      clashing body was uploaded before. */
  lemma GrantedCanUpload(cfg: Config, s: State, request: Request, view: GitHub.GitHubView, a: Authorization,
                         o: Protocol.RequestObject, body: seq<bv8>, earliest: int) returns (steps: seq<Step>, t: State)
    requires cfg.cache.Valid() && Reachable(cfg, s) && Lifecycle.NoClash(cfg.world, s.objects, body)
    requires GitHub.Grants(cfg.clientID, cfg.allowed, request.token, view, a) && a.permission == Write
    requires Protocol.ValidObject(cfg.world.maxObjectSize, o)
    requires |body| == o.size && cfg.world.hash(body) == o.oid
    ensures Leads(cfg, s, steps, t)
    ensures |t.auth.calls| == |s.auth.calls| + 1
         && t.auth.calls[|s.auth.calls|] == Lookaside.Call(request, Lookaside.Returned(a))
    ensures forall q :: |s.auth.log| <= q < |t.auth.log| ==> t.auth.log[q].now >= earliest
    ensures Lifecycle.VerifyIn(cfg.world, t.objects, o, a, None) == Protocol.Verified
  {
    ReachableInv(cfg, s);
    var c := |s.auth.calls|;
    var now := Lookaside.CanMiss(cfg.cache, s.auth, request, earliest);
    var asked := AfterAsking(cfg, s, request, view, a, now);
    var own, objects := Lifecycle.UploadIsAlwaysPossible(cfg.world, s.objects, o, body, a);
    var begin := Begin(c, Lifecycle.UploadRequest(o), "", "");
    assert c !in s.callers;
    var begun := Apply(cfg, asked, begin);
    assert begun.objects == Lifecycle.Apply(cfg.world, s.objects, own[0]);
    t := begun.(objects := objects);
    StoresLead(cfg, begun, own[1..], objects);
    FirstStep(cfg, asked, begin, Stores(own[1..]), t);
    steps := AskThen(cfg, s, request, view, a, now, [begin] + Stores(own[1..]), t);
  }

  /** An answer of no permission is cached like any other: from every state, a token of an allowed
      installation can be granted one that is then returned to a later call from the cache. */
  lemma NoPermissionIsServed(cfg: Config, s: State, request: Request, id: int64, repositoryID: int64,
                             earliest: int)
      returns (a: Authorization, steps: seq<Step>, t: State)
    requires cfg.cache.Valid() && cfg.cache.ttl > 0 && Reachable(cfg, s)
    requires "ghu_" <= request.token && id in cfg.allowed && id > 0 && repositoryID > 0
    ensures Leads(cfg, s, steps, t) && a.permission == NoPermission && a.repositoryID == repositoryID
    ensures var c := |s.auth.calls| + 1;
            && |t.auth.calls| == c + 1 && t.auth.calls[c] == Lookaside.Call(request, Lookaside.Returned(a))
            && |t.auth.log| == |s.auth.log| + 4 && t.auth.log[|s.auth.log| + 3].Hit?
            && t.auth.log[|s.auth.log| + 3].call == c
    ensures forall q :: |s.auth.log| <= q < |t.auth.log| ==> t.auth.log[q].now >= earliest
  {
    ReachableInv(cfg, s);
    hide GitHub.Grants, Inv;
    var view;
    view, a := GitHub.GrantsWithoutRights(cfg.clientID, cfg.allowed, request.token, id, repositoryID);
    var now := Lookaside.CanMiss(cfg.cache, s.auth, request, earliest);
    var asked, c := AfterAsking(cfg, s, request, view, a, now), |s.auth.calls| + 1;
    CachedAfterAsking(cfg, s, request, view, a, now);
    var rest;
    rest, t := ReadCached(cfg, AfterAsking(cfg, s, request, view, a, now), request, now, a);
    hide Leads;
    steps := AskThen(cfg, s, request, view, a, now, rest, t);
  }

  /** A new call for a cached request returns the entry's value. */
  lemma ReadCached(cfg: Config, s: State, request: Request, now: int, a: Authorization)
      returns (steps: seq<Step>, t: State)
    requires Lru.Answer(s.auth.cache, cfg.cache.Key(request), now) == Some(a)
    ensures Leads(cfg, s, steps, t)
    ensures t.auth.calls == s.auth.calls + [Lookaside.Call(request, Lookaside.Returned(a))]
    ensures t.auth.log == s.auth.log + [Lookaside.Hit(|s.auth.calls|, a, now)]
  {
    hide Lru.Answer, Lru.AfterGet, Lookaside.Settings.Key;
    var arrive := Authorizing(Lookaside.Arrive(request));
    var look := Authorizing(Lookaside.Lookup(|s.auth.calls|, now));
    var arrived := Apply(cfg, s, arrive);
    t := Apply(cfg, arrived, look);
    assert Leads(cfg, t, [], t);
    FirstStep(cfg, arrived, look, [], t);
    FirstStep(cfg, s, arrive, [look] + [], t);
    steps := [arrive] + ([look] + []);
  }

  lemma CachedAfterAsking(cfg: Config, s: State, request: Request, view: GitHub.GitHubView, a: Authorization,
                          now: int)
    requires cfg.cache.Valid() && cfg.cache.ttl > 0 && Lookaside.Reachable(cfg.cache, s.auth)
    ensures Lru.Answer(AfterAsking(cfg, s, request, view, a, now).auth.cache, cfg.cache.Key(request), now)
         == Some(a)
  {
    Lookaside.ReachableInv(cfg.cache, s.auth);
    var key := cfg.cache.Key(request);
    var missed := Lru.AfterGet(s.auth.cache, key, now);
    Lru.ApplyKeepsBounded(s.auth.cache, cfg.cache.capacity, cfg.cache.ttl, Lru.Get(key, now));
    hide Lookaside.Inv, Lookaside.Reachable, Lru.Answer, Lru.AfterPut, Lru.AfterGet;
    Lru.PutIsAnswered(missed, cfg.cache.capacity, Lru.Entry(key, a, now + cfg.cache.ttl), now);
  }
}
