/** Many concurrent calls of Handler.authorize over one shared cache. Each call is up to three
    atomic steps (the locked lookup, the authorizer's reply, the locked store) and any call may take
    its next step at any moment. Clock readings are unconstrained. */
module Lookaside {
  import opened Wrappers
  import opened Forge
  import CacheKey
  import Lru

  datatype Settings = Settings(capacity: nat, ttl: int, mac: string -> string) {
    ghost predicate Valid() {
      capacity > 0
    }

    function Key(r: Request): string {
      CacheKey.Key(mac, r)
    }
  }

  datatype Phase =
    | Looking
    | Asking
    | Storing(answer: Authorization)
    | Returned(value: Authorization)
    | Failed(error: Error)

  datatype Call = Call(request: Request, phase: Phase)

  /** What has happened so far, oldest first. */
  datatype Event =
    | Missed(call: nat, now: int)
    | Answered(call: nat, value: Authorization, now: int)
    | Stored(call: nat, value: Authorization, now: int)
    | Hit(call: nat, value: Authorization, now: int)

  datatype System = System(cache: Lru.Recency<Authorization>, calls: seq<Call>, log: seq<Event>)

  const INITIAL := System([], [], [])

  datatype Step =
    | Arrive(request: Request)
    | Lookup(call: nat, now: int)
    | Reply(call: nat, reply: Result<Authorization, Error>, now: int)
    | Store(call: nat, now: int)

  predicate Enabled(s: System, step: Step) {
    match step
    case Arrive(_) => true
    case Lookup(c, _) => c < |s.calls| && s.calls[c].phase.Looking?
    case Reply(c, _, _) => c < |s.calls| && s.calls[c].phase.Asking?
    case Store(c, _) => c < |s.calls| && s.calls[c].phase.Storing?
  }

  function SetPhase(s: System, c: nat, phase: Phase): System
    requires c < |s.calls|
  {
    s.(calls := s.calls[c := s.calls[c].(phase := phase)])
  }

  function Apply(cfg: Settings, s: System, step: Step): System
    requires Enabled(s, step)
  {
    match step
    case Arrive(request) => s.(calls := s.calls + [Call(request, Looking)])
    case Lookup(c, now) =>
      var key := cfg.Key(s.calls[c].request);
      var looked := s.(cache := Lru.AfterGet(s.cache, key, now));
      (match Lru.Answer(s.cache, key, now)
       case Some(value) => SetPhase(looked, c, Returned(value)).(log := s.log + [Hit(c, value, now)])
       case None => SetPhase(looked, c, Asking).(log := s.log + [Missed(c, now)]))
    case Reply(c, Failure(error), _) => SetPhase(s, c, Failed(error))
    case Reply(c, Success(value), now) =>
      SetPhase(s, c, Storing(value)).(log := s.log + [Answered(c, value, now)])
    case Store(c, now) =>
      var value := s.calls[c].phase.answer;
      var entry := Lru.Entry(cfg.Key(s.calls[c].request), value, now + cfg.ttl);
      SetPhase(s, c, Returned(value)).(cache := Lru.AfterPut(s.cache, cfg.capacity, entry),
                                       log := s.log + [Stored(c, value, now)])
  }

  /** `steps` is a run from `s` to `t`. */
  ghost predicate Leads(cfg: Settings, s: System, steps: seq<Step>, t: System)
    decreases |steps|
  {
    if steps == [] then s == t
    else Enabled(s, steps[0]) && Leads(cfg, Apply(cfg, s, steps[0]), steps[1..], t)
  }

  /** A system some run from the start leads to. */
  ghost predicate Reachable(cfg: Settings, s: System) {
    exists steps :: Leads(cfg, INITIAL, steps, s)
  }

  // ----- what every run keeps

  ghost predicate EventHas(s: System, p: nat, key: string, cfg: Settings) {
    p < |s.log| && s.log[p].call < |s.calls| && cfg.Key(s.calls[s.log[p].call].request) == key
  }

  /** Event p is the latest store under its key before event `end`, and no call has missed under that
      key since. */
  ghost predicate LatestStore(cfg: Settings, s: System, p: nat, key: string, end: nat) {
    && p < end <= |s.log| && s.log[p].Stored? && EventHas(s, p, key, cfg)
    && forall q :: p < q < end && (s.log[q].Stored? || s.log[q].Missed?) ==> !EventHas(s, q, key, cfg)
  }

  /** Event q is the authorizer's answer to call c. */
  ghost predicate GaveAnswer(s: System, q: nat, c: nat, value: Authorization) {
    q < |s.log| && s.log[q].Answered? && s.log[q].call == c && s.log[q].value == value
  }

  /** The authorizer itself gave call c this value, before event `end`. */
  ghost predicate AnsweredBefore(s: System, c: nat, value: Authorization, end: nat) {
    exists q :: 0 <= q < end <= |s.log| && GaveAnswer(s, q, c, value)
  }

  /** Call c has missed before event `end`. */
  ghost predicate MissedBefore(s: System, c: nat, end: nat) {
    exists q :: 0 <= q < end <= |s.log| && s.log[q].Missed? && s.log[q].call == c
  }

  ghost predicate UnansweredBefore(s: System, c: nat, end: nat) {
    end <= |s.log| && forall q :: 0 <= q < end && s.log[q].Answered? ==> s.log[q].call != c
  }

  /** Hit r returned what store p, the latest under its key, had put; p's own call had it from the
      authorizer; and it was read at a time before p's time plus the lifetime. */
  ghost predicate HitFrom(cfg: Settings, s: System, r: nat, p: nat)
    requires r < |s.log| && s.log[r].Hit? && s.log[r].call < |s.calls|
  {
    && LatestStore(cfg, s, p, cfg.Key(s.calls[s.log[r].call].request), r)
    && s.log[p].value == s.log[r].value
    && s.log[r].now < s.log[p].now + cfg.ttl
    && AnsweredBefore(s, s.log[p].call, s.log[p].value, p)
  }

  ghost predicate SoundHit(cfg: Settings, s: System, r: nat)
    requires r < |s.log| && s.log[r].Hit? && s.log[r].call < |s.calls|
  {
    exists p: nat :: HitFrom(cfg, s, r, p)
  }

  ghost predicate EntryFrom(cfg: Settings, s: System, e: Lru.Entry<Authorization>, p: nat) {
    && LatestStore(cfg, s, p, e.key, |s.log|)
    && s.log[p].value == e.value
    && e.expiresAt == s.log[p].now + cfg.ttl
  }

  ghost predicate SoundEntry(cfg: Settings, s: System, e: Lru.Entry<Authorization>) {
    exists p: nat :: EntryFrom(cfg, s, e, p)
  }

  ghost predicate HitBy(s: System, c: nat, value: Authorization, r: nat) {
    r < |s.log| && s.log[r].Hit? && s.log[r].call == c && s.log[r].value == value
  }

  ghost predicate SoundCall(s: System, c: nat)
    requires c < |s.calls|
  {
    match s.calls[c].phase
    case Looking => UnansweredBefore(s, c, |s.log|)
    case Asking => UnansweredBefore(s, c, |s.log|) && MissedBefore(s, c, |s.log|)
    case Storing(v) => AnsweredBefore(s, c, v, |s.log|)
    case Returned(v) => AnsweredBefore(s, c, v, |s.log|) || exists r: nat :: HitBy(s, c, v, r)
    case _ => true
  }

  ghost predicate CacheOk(cfg: Settings, s: System) {
    Lru.Bounded(s.cache, cfg.capacity) && forall e <- s.cache :: SoundEntry(cfg, s, e)
  }

  ghost predicate EventOk(cfg: Settings, s: System, p: nat)
    requires p < |s.log|
  {
    && s.log[p].call < |s.calls|
    && (s.log[p].Answered? ==> MissedBefore(s, s.log[p].call, p) && UnansweredBefore(s, s.log[p].call, p))
    && (s.log[p].Stored? ==> AnsweredBefore(s, s.log[p].call, s.log[p].value, p))
    && (s.log[p].Hit? ==> SoundHit(cfg, s, p))
  }

  ghost predicate LogOk(cfg: Settings, s: System) {
    forall p :: 0 <= p < |s.log| ==> EventOk(cfg, s, p)
  }

  ghost predicate CallsOk(s: System) {
    forall c :: 0 <= c < |s.calls| ==> SoundCall(s, c)
  }

  ghost predicate Inv(cfg: Settings, s: System) {
    CacheOk(cfg, s) && LogOk(cfg, s) && CallsOk(s)
  }

  /** A later system: calls keep their requests, the log only grows. */
  ghost predicate Later(s: System, t: System) {
    && |s.calls| <= |t.calls| && (forall c :: 0 <= c < |s.calls| ==> t.calls[c].request == s.calls[c].request)
    && |s.log| <= |t.log| && (forall p :: 0 <= p < |s.log| ==> t.log[p] == s.log[p])
  }

  lemma EventsInRange(cfg: Settings, s: System)
    requires LogOk(cfg, s)
    ensures forall p :: 0 <= p < |s.log| ==> s.log[p].call < |s.calls|
  {
    forall p | 0 <= p < |s.log| ensures s.log[p].call < |s.calls| {
      assert EventOk(cfg, s, p);
    }
  }

  lemma LaterKeepsHits(cfg: Settings, s: System, t: System, r: nat)
    requires Later(s, t) && r < |s.log| && s.log[r].Hit? && LogOk(cfg, s) && s.log[r].call < |s.calls|
    ensures SoundHit(cfg, t, r)
  {
    assert EventOk(cfg, s, r);
    var p: nat :| HitFrom(cfg, s, r, p);
    LaterKeepsAnswers(s, t, s.log[p].call, s.log[p].value, p);
    EventsInRange(cfg, s);
    assert HitFrom(cfg, t, r, p);
  }

  lemma LaterKeepsAnswers(s: System, t: System, c: nat, v: Authorization, end: nat)
    requires Later(s, t) && AnsweredBefore(s, c, v, end)
    ensures forall end' :: end <= end' <= |t.log| ==> AnsweredBefore(t, c, v, end')
  {
    var q :| 0 <= q < end && GaveAnswer(s, q, c, v);
    assert GaveAnswer(t, q, c, v);
  }

  lemma LaterKeepsMisses(s: System, t: System, c: nat, end: nat)
    requires Later(s, t) && MissedBefore(s, c, end)
    ensures forall end' :: end <= end' <= |t.log| ==> MissedBefore(t, c, end')
  {
    var q :| 0 <= q < end && s.log[q].Missed? && s.log[q].call == c;
    assert t.log[q] == s.log[q];
  }

  lemma LaterKeepsEntry(cfg: Settings, s: System, t: System, e: Lru.Entry<Authorization>)
    requires Later(s, t) && SoundEntry(cfg, s, e) && LogOk(cfg, s)
    requires forall q :: |s.log| <= q < |t.log| && (t.log[q].Stored? || t.log[q].Missed?) ==>
               !EventHas(t, q, e.key, cfg)
    ensures SoundEntry(cfg, t, e)
  {
    var p: nat :| EntryFrom(cfg, s, e, p);
    forall q | p < q < |t.log| && (t.log[q].Stored? || t.log[q].Missed?) ensures !EventHas(t, q, e.key, cfg) {
      if q < |s.log| {
        assert t.log[q] == s.log[q] && EventOk(cfg, s, q);
      }
    }
    assert EntryFrom(cfg, t, e, p);
  }

  lemma LaterKeepsCall(s: System, t: System, c: nat)
    requires Later(s, t) && c < |s.calls| && SoundCall(s, c) && t.calls[c] == s.calls[c]
    requires forall q :: |s.log| <= q < |t.log| ==> t.log[q].call != c
    ensures SoundCall(t, c)
  {
    match s.calls[c].phase {
      case Asking => LaterKeepsMisses(s, t, c, |s.log|);
      case Storing(v) => LaterKeepsAnswers(s, t, c, v, |s.log|);
      case Returned(v) =>
        if AnsweredBefore(s, c, v, |s.log|) {
          LaterKeepsAnswers(s, t, c, v, |s.log|);
        } else {
          var r: nat :| HitBy(s, c, v, r);
          assert HitBy(t, c, v, r);
        }
      case _ =>
    }
  }

  /** A step of call c alone keeps what holds of the other calls and of the events so far. */
  lemma KeepOthers(cfg: Settings, s: System, t: System, c: nat)
    requires Inv(cfg, s) && Later(s, t) && forall q :: |s.log| <= q < |t.log| ==> t.log[q].call == c
    requires forall d :: 0 <= d < |s.calls| && d != c ==> t.calls[d] == s.calls[d]
    ensures forall p :: 0 <= p < |s.log| ==> EventOk(cfg, t, p)
    ensures forall d :: 0 <= d < |s.calls| && d != c ==> SoundCall(t, d)
  {
    forall p | 0 <= p < |s.log| ensures EventOk(cfg, t, p) {
      assert EventOk(cfg, s, p);
      if s.log[p].Answered? {
        LaterKeepsMisses(s, t, s.log[p].call, p);
      } else if s.log[p].Stored? {
        LaterKeepsAnswers(s, t, s.log[p].call, s.log[p].value, p);
      } else if s.log[p].Hit? {
        LaterKeepsHits(cfg, s, t, p);
      }
    }
    forall d | 0 <= d < |s.calls| && d != c ensures SoundCall(t, d) {
      LaterKeepsCall(s, t, d);
    }
  }

  lemma LookupKeepsCache(cfg: Settings, s: System, t: System, key: string, now: int)
    requires cfg.Valid() && Inv(cfg, s) && Later(s, t) && t.cache == Lru.AfterGet(s.cache, key, now)
    requires forall q :: |s.log| <= q < |t.log| ==> !t.log[q].Stored?
    requires forall q :: |s.log| <= q < |t.log| && t.log[q].Missed? ==>
               Lru.Answer(s.cache, key, now) == None && EventHas(t, q, key, cfg)
    ensures CacheOk(cfg, t)
  {
    Lru.ApplyKeepsBounded(s.cache, cfg.capacity, cfg.ttl, Lru.Get(key, now));
    Lru.GetMeaning(s.cache, key, now);
    Lru.OthersOnly(s.cache, key);
    forall e | e in t.cache ensures SoundEntry(cfg, t, e) {
      assert e in s.cache;
      LaterKeepsEntry(cfg, s, t, e);
    }
  }

  lemma HitIsSound(cfg: Settings, s: System, t: System, c: nat, now: int, e: Lru.Entry<Authorization>)
    requires Inv(cfg, s) && Later(s, t) && c < |s.calls| && e in s.cache
    requires cfg.Key(s.calls[c].request) == e.key && now < e.expiresAt
    requires t.log == s.log + [Hit(c, e.value, now)] && t.calls[c].phase == Returned(e.value)
    ensures EventOk(cfg, t, |s.log|) && SoundCall(t, c)
  {
    var r := |s.log|;
    assert SoundEntry(cfg, s, e);
    var p: nat :| EntryFrom(cfg, s, e, p);
    assert EventOk(cfg, s, p);
    LaterKeepsAnswers(s, t, s.log[p].call, s.log[p].value, p);
    EventsInRange(cfg, s);
    assert forall q :: 0 <= q < r ==> t.log[q] == s.log[q];
    assert LatestStore(cfg, t, p, e.key, r);
    assert HitFrom(cfg, t, r, p);
    assert HitBy(t, c, e.value, r);
  }

  lemma LookupKeepsInv(cfg: Settings, s: System, step: Step)
    requires cfg.Valid() && Inv(cfg, s) && Enabled(s, step) && step.Lookup?
    ensures Inv(cfg, Apply(cfg, s, step))
  {
    var t, c, key := Apply(cfg, s, step), step.call, cfg.Key(s.calls[step.call].request);
    KeepOthers(cfg, s, t, c);
    LookupKeepsCache(cfg, s, t, key, step.now);
    if Lru.Answer(s.cache, key, step.now).Some? {
      HitIsSound(cfg, s, t, c, step.now, s.cache[Lru.Find(s.cache, key)]);
    } else {
      assert t.log[|s.log|] == Missed(c, step.now) && SoundCall(s, c);
      assert EventOk(cfg, t, |s.log|) && SoundCall(t, c);
    }
  }

  lemma StoreKeepsCache(cfg: Settings, s: System, t: System, c: nat, entry: Lru.Entry<Authorization>, now: int)
    requires Inv(cfg, s) && Later(s, t) && c < |s.calls|
    requires entry.key == cfg.Key(s.calls[c].request) && entry.expiresAt == now + cfg.ttl
    requires t.cache == Lru.AfterPut(s.cache, cfg.capacity, entry) && t.log == s.log + [Stored(c, entry.value, now)]
    requires cfg.capacity > 0
    ensures CacheOk(cfg, t)
  {
    Lru.ApplyKeepsBounded(s.cache, cfg.capacity, cfg.ttl, Lru.Put(entry.key, entry.value, now));
    assert t.cache[0] == entry;
    assert EntryFrom(cfg, t, entry, |s.log|);
    forall i | 0 < i < |t.cache| ensures SoundEntry(cfg, t, t.cache[i]) {
      PutKeepsOld(s.cache, cfg.capacity, entry, i);
      LaterKeepsEntry(cfg, s, t, t.cache[i]);
    }
  }

  lemma PutKeepsOld(c: Lru.Recency<Authorization>, capacity: nat, entry: Lru.Entry<Authorization>, i: nat)
    requires Lru.Distinct(c) && 0 < i < |Lru.AfterPut(c, capacity, entry)|
    ensures Lru.AfterPut(c, capacity, entry)[i] in c
    ensures Lru.AfterPut(c, capacity, entry)[i].key != entry.key
  {}

  lemma StoreKeepsInv(cfg: Settings, s: System, step: Step)
    requires cfg.Valid() && Inv(cfg, s) && Enabled(s, step) && step.Store?
    ensures Inv(cfg, Apply(cfg, s, step))
  {
    var t, c := Apply(cfg, s, step), step.call;
    var value := s.calls[c].phase.answer;
    KeepOthers(cfg, s, t, c);
    StoreKeepsCache(cfg, s, t, c, Lru.Entry(cfg.Key(s.calls[c].request), value, step.now + cfg.ttl), step.now);
    assert SoundCall(s, c);
    LaterKeepsAnswers(s, t, c, value, |s.log|);
    assert EventOk(cfg, t, |s.log|) && SoundCall(t, c);
  }

  lemma ReplyKeepsInv(cfg: Settings, s: System, step: Step)
    requires cfg.Valid() && Inv(cfg, s) && Enabled(s, step) && step.Reply?
    ensures Inv(cfg, Apply(cfg, s, step))
  {
    var t, c := Apply(cfg, s, step), step.call;
    KeepOthers(cfg, s, t, c);
    forall e | e in t.cache ensures SoundEntry(cfg, t, e) {
      LaterKeepsEntry(cfg, s, t, e);
    }
    if step.reply.Success? {
      assert GaveAnswer(t, |s.log|, c, step.reply.value) && SoundCall(s, c);
      LaterKeepsMisses(s, t, c, |s.log|);
      assert EventOk(cfg, t, |s.log|) && SoundCall(t, c);
    }
  }

  lemma ArriveKeepsInv(cfg: Settings, s: System, step: Step)
    requires cfg.Valid() && Inv(cfg, s) && step.Arrive?
    ensures Inv(cfg, Apply(cfg, s, step))
  {
    var t := Apply(cfg, s, step);
    KeepOthers(cfg, s, t, |s.calls|);
    EventsInRange(cfg, s);
    assert SoundCall(t, |s.calls|);
    forall e | e in t.cache ensures SoundEntry(cfg, t, e) {
      LaterKeepsEntry(cfg, s, t, e);
    }
  }

  lemma {:induction false} RunKeepsInv(cfg: Settings, s: System, steps: seq<Step>, t: System)
    requires cfg.Valid() && Inv(cfg, s) && Leads(cfg, s, steps, t)
    ensures Inv(cfg, t)
    decreases |steps|
  {
    if steps != [] {
      match steps[0] {
        case Arrive(_) => ArriveKeepsInv(cfg, s, steps[0]);
        case Lookup(_, _) => LookupKeepsInv(cfg, s, steps[0]);
        case Reply(_, _, _) => ReplyKeepsInv(cfg, s, steps[0]);
        case Store(_, _) => StoreKeepsInv(cfg, s, steps[0]);
      }
      RunKeepsInv(cfg, Apply(cfg, s, steps[0]), steps[1..], t);
    }
  }

  lemma ReachableInv(cfg: Settings, s: System)
    requires cfg.Valid() && Reachable(cfg, s)
    ensures Inv(cfg, s)
  {
    var steps :| Leads(cfg, INITIAL, steps, s);
    RunKeepsInv(cfg, INITIAL, steps, s);
  }

  // ----- the main result

  /** The HMAC takes no two texts of this run's requests for one. */
  ghost predicate NoMacClash(cfg: Settings, s: System) {
    forall c, d :: 0 <= c < |s.calls| && 0 <= d < |s.calls| ==>
      CacheKey.NoClash(cfg.mac, s.calls[c].request, s.calls[d].request)
  }

  /** Event p concerns a request whose cache key text is that of `request`. */
  ghost predicate SharesKey(s: System, p: nat, request: Request) {
    p < |s.log| && s.log[p].call < |s.calls|
    && CacheKey.Preimage(s.calls[s.log[p].call].request) == CacheKey.Preimage(request)
  }

  /** Call c read, at hit r, the value that store p put under the same key text: p's own call had it
      from the authorizer before storing it at time t, r read it at a time below t + ttl, and in between
      no call under that text stored anything or missed. */
  ghost predicate ReadFrom(cfg: Settings, s: System, c: nat, value: Authorization, p: nat, r: nat)
    requires c < |s.calls|
  {
    && p < r && HitBy(s, c, value, r)
    && s.log[p].Stored? && s.log[p].value == value && SharesKey(s, p, s.calls[c].request)
    && AnsweredBefore(s, s.log[p].call, value, p)
    && s.log[r].now < s.log[p].now + cfg.ttl
    && forall q :: p < q < r && (s.log[q].Stored? || s.log[q].Missed?) ==> !SharesKey(s, q, s.calls[c].request)
  }

  /** Bounded staleness over every interleaving: a call returns what the authorizer answered to
      itself, or what it reads from a store under the same key text made less than `ttl` before. */
  lemma BoundedStaleness(cfg: Settings, s: System, c: nat)
    requires cfg.Valid() && NoMacClash(cfg, s) && Reachable(cfg, s)
    requires c < |s.calls| && s.calls[c].phase.Returned?
    ensures var value := s.calls[c].phase.value;
            AnsweredBefore(s, c, value, |s.log|) || exists p: nat, r: nat :: ReadFrom(cfg, s, c, value, p, r)
  {
    ReachableInv(cfg, s);
    var value := s.calls[c].phase.value;
    assert SoundCall(s, c);
    if !AnsweredBefore(s, c, value, |s.log|) {
      var r: nat :| HitBy(s, c, value, r);
      EventsInRange(cfg, s);
      assert EventOk(cfg, s, r);
      var p: nat :| HitFrom(cfg, s, r, p);
      assert forall q :: 0 <= q < |s.log| ==>
        (EventHas(s, q, cfg.Key(s.calls[c].request), cfg) <==> SharesKey(s, q, s.calls[c].request));
      assert ReadFrom(cfg, s, c, value, p, r);
    }
  }

  /** The authorizer gave this value to some call for the same request. */
  ghost predicate AnsweredForRequest(s: System, request: Request, value: Authorization) {
    exists d :: 0 <= d < |s.calls| && CacheKey.SameRequest(s.calls[d].request, request)
             && AnsweredBefore(s, d, value, |s.log|)
  }

  /** A request whose key text is its own alone only ever gets answers for that request. */
  lemma OwnAnswersOnly(cfg: Settings, s: System, c: nat)
    requires cfg.Valid() && NoMacClash(cfg, s) && Reachable(cfg, s)
    requires c < |s.calls| && s.calls[c].phase.Returned? && !CacheKey.Ambiguous(s.calls[c].request)
    ensures AnsweredForRequest(s, s.calls[c].request, s.calls[c].phase.value)
  {
    var request, value := s.calls[c].request, s.calls[c].phase.value;
    BoundedStaleness(cfg, s, c);
    if !AnsweredBefore(s, c, value, |s.log|) {
      var p: nat, r: nat :| ReadFrom(cfg, s, c, value, p, r);
      var d := s.log[p].call;
      CacheKey.CollidesExactlyWhenAmbiguous(request);
      assert CacheKey.SameRequest(s.calls[d].request, request);
      var q :| 0 <= q < p && GaveAnswer(s, q, d, value);
    }
  }

  lemma {:induction false} Extend(cfg: Settings, s: System, steps: seq<Step>, t: System, step: Step)
    requires Leads(cfg, s, steps, t) && Enabled(t, step)
    ensures Leads(cfg, s, steps + [step], Apply(cfg, t, step))
    decreases |steps|
  {
    var longer := steps + [step];
    if steps == [] {
      assert longer[1..] == [];
    } else {
      assert longer[0] == steps[0] && longer[1..] == steps[1..] + [step];
      Extend(cfg, Apply(cfg, s, steps[0]), steps[1..], t, step);
    }
  }

  lemma Reach(cfg: Settings, s: System, step: Step, t: System)
    requires Reachable(cfg, s) && Enabled(s, step) && t == Apply(cfg, s, step)
    ensures Reachable(cfg, t)
  {
    var steps :| Leads(cfg, INITIAL, steps, s);
    Extend(cfg, INITIAL, steps, s, step);
  }

  lemma {:induction false} RunIsLater(cfg: Settings, s: System, steps: seq<Step>, t: System)
    requires Leads(cfg, s, steps, t)
    ensures Later(s, t)
    decreases |steps|
  {
    if steps != [] {
      RunIsLater(cfg, Apply(cfg, s, steps[0]), steps[1..], t);
    }
  }

  // ----- how old can a hit be?

  /** Store p put what the authorizer had answered at event q. */
  ghost predicate StoredFrom(s: System, p: nat, q: nat) {
    q < p < |s.log| && s.log[p].Stored? && GaveAnswer(s, q, s.log[p].call, s.log[p].value)
  }

  /** A hit's age, counted from the authorizer's answer, is below the lifetime plus the time that its
      call took from the answer to the store. */
  lemma AgeBounded(cfg: Settings, s: System, r: nat) returns (p: nat, q: nat)
    requires cfg.Valid() && Reachable(cfg, s) && IsHit(s, r)
    ensures HitFrom(cfg, s, r, p) && StoredFrom(s, p, q)
    ensures s.log[r].now - s.log[q].now < cfg.ttl + (s.log[p].now - s.log[q].now)
  {
    ReachableInv(cfg, s);
    assert EventOk(cfg, s, r);
    p :| HitFrom(cfg, s, r, p);
    q :| q < p && GaveAnswer(s, q, s.log[p].call, s.log[p].value);
  }

  /** In t, which these steps lead to from s, a later hit returns store p's answer at least a lifetime
      after event q gave it. */
  ghost predicate OutlivedIn(cfg: Settings, s: System, p: nat, q: nat, steps: seq<Step>, t: System, r: nat) {
    && Leads(cfg, s, steps, t) && |s.log| <= r && IsHit(t, r) && HitFrom(cfg, t, r, p)
    && q < |t.log| && t.log[q].Answered? && t.log[r].now - t.log[q].now >= cfg.ttl
  }

  /** And the bound is reached: while store p's entry is cached, some continuation returns its answer a
      lifetime or more after the authorizer gave it, exactly when the store came later than the
      answer. */
  lemma OutlivedExactly(cfg: Settings, s: System, i: nat, p: nat, q: nat)
    requires cfg.Valid() && Reachable(cfg, s) && i < |s.cache|
    requires LatestStore(cfg, s, p, s.cache[i].key, |s.log|) && StoredFrom(s, p, q)
    ensures (exists steps, t, r: nat :: OutlivedIn(cfg, s, p, q, steps, t, r)) <==> s.log[p].now > s.log[q].now
  {
    if steps, t, r: nat :| OutlivedIn(cfg, s, p, q, steps, t, r) {
      RunIsLater(cfg, s, steps, t);
      assert t.log[p] == s.log[p] && t.log[q] == s.log[q];
    }
    if s.log[p].now > s.log[q].now {
      var steps, t := ReadLast(cfg, s, i, p);
      assert t.log[q] == s.log[q];
      assert OutlivedIn(cfg, s, p, q, steps, t, |s.log|);
    }
  }

  /** A call that reads a cached entry just before it expires. */
  lemma ReadLast(cfg: Settings, s: System, i: nat, p: nat) returns (steps: seq<Step>, t: System)
    requires cfg.Valid() && Reachable(cfg, s) && i < |s.cache|
    requires LatestStore(cfg, s, p, s.cache[i].key, |s.log|)
    ensures Leads(cfg, s, steps, t) && Later(s, t) && |t.log| == |s.log| + 1
    ensures IsHit(t, |s.log|) && HitFrom(cfg, t, |s.log|, p) && t.log[|s.log|].now == s.log[p].now + cfg.ttl - 1
  {
    ReachableInv(cfg, s);
    assert s.cache[i] in s.cache && SoundEntry(cfg, s, s.cache[i]);
    var source: nat :| EntryFrom(cfg, s, s.cache[i], source);
    assert source == p;
    assert EventOk(cfg, s, p);
    var now, request := s.log[p].now + cfg.ttl - 1, s.calls[s.log[p].call].request;
    Lru.FindUnique(s.cache, i);
    var arrived := Apply(cfg, s, Arrive(request));
    t := Apply(cfg, arrived, Lookup(|s.calls|, now));
    assert Leads(cfg, s, [], s);
    Extend(cfg, s, [], s, Arrive(request));
    Extend(cfg, s, [] + [Arrive(request)], arrived, Lookup(|s.calls|, now));
    steps := [] + [Arrive(request)] + [Lookup(|s.calls|, now)];
    RunIsLater(cfg, s, steps, t);
    var value, c := s.cache[i].value, s.log[p].call;
    assert t.log == s.log + [Hit(|s.calls|, value, now)];
    var q :| 0 <= q < p && GaveAnswer(s, q, c, value);
    assert GaveAnswer(t, q, c, value);
    KeepsLatest(cfg, s, t, p, s.cache[i].key);
  }

  lemma KeepsLatest(cfg: Settings, s: System, t: System, p: nat, key: string)
    requires Later(s, t) && LogOk(cfg, s) && LatestStore(cfg, s, p, key, |s.log|)
    ensures LatestStore(cfg, t, p, key, |s.log|)
  {
    EventsInRange(cfg, s);
    assert forall q :: 0 <= q < |s.log| ==> t.log[q] == s.log[q];
  }

  // ----- is the cache positive?

  /** The latest store under a cached entry's key put an answer of no permission. */
  ghost predicate PutNoPermission(cfg: Settings, s: System, e: Lru.Entry<Authorization>, p: nat) {
    e in s.cache && LatestStore(cfg, s, p, e.key, |s.log|) && s.log[p].value.permission == NoPermission
  }

  /** Every cached entry is Read or Write exactly as long as no latest store under a key still present
      put an answer of no permission. */
  lemma PositiveExactly(cfg: Settings, s: System)
    requires cfg.Valid() && Reachable(cfg, s)
    ensures (forall e <- s.cache :: e.value.permission != NoPermission)
       <==> !exists e, p: nat :: PutNoPermission(cfg, s, e, p)
  {
    ReachableInv(cfg, s);
    forall e, p: nat | e in s.cache && LatestStore(cfg, s, p, e.key, |s.log|) ensures s.log[p].value == e.value {
      assert SoundEntry(cfg, s, e);
      var source: nat :| EntryFrom(cfg, s, e, source);
      assert source == p;
    }
    forall e | e in s.cache && e.value.permission == NoPermission
      ensures exists p: nat :: PutNoPermission(cfg, s, e, p)
    {
      assert SoundEntry(cfg, s, e);
      var p: nat :| EntryFrom(cfg, s, e, p);
      assert PutNoPermission(cfg, s, e, p);
    }
  }

  /** One call that has stored its answer. */
  function OneStored(cfg: Settings, request: Request, value: Authorization): System {
    System([Lru.Entry(cfg.Key(request), value, cfg.ttl)], [Call(request, Returned(value))],
           [Missed(0, 0), Answered(0, value, 0), Stored(0, value, 0)])
  }

  lemma ReachOneStored(cfg: Settings, request: Request, value: Authorization)
    requires cfg.capacity > 0
    ensures Reachable(cfg, OneStored(cfg, request, value))
  {
    hide Settings.Key;
    assert Leads(cfg, INITIAL, [], INITIAL);
    var s1, s2 := System([], [Call(request, Looking)], []), System([], [Call(request, Asking)], [Missed(0, 0)]);
    Reach(cfg, INITIAL, Arrive(request), s1);
    Reach(cfg, s1, Lookup(0, 0), s2);
    var s3 := System([], [Call(request, Storing(value))], [Missed(0, 0), Answered(0, value, 0)]);
    Reach(cfg, s2, Reply(0, Success(value), 0), s3);
    Reach(cfg, s3, Store(0, 0), OneStored(cfg, request, value));
  }

  /** And the condition is sharp: for every other request there is a run in which it gets an answer
      that the authorizer gave only for a different request. */
  lemma AmbiguousSharesAnswers(cfg: Settings, request: Request, value: Authorization) returns (s: System)
    requires cfg.capacity > 0 && cfg.ttl > 0 && CacheKey.Ambiguous(request)
    ensures Reachable(cfg, s) && |s.calls| == 2 && s.calls[1] == Call(request, Returned(value))
    ensures !AnsweredForRequest(s, request, value)
  {
    hide CacheKey.Ambiguous;
    CacheKey.CollidesExactlyWhenAmbiguous(request);
    var other :| CacheKey.Preimage(other) == CacheKey.Preimage(request) && !CacheKey.SameRequest(other, request);
    hide CacheKey.Preimage, CacheKey.SameRequest;
    ReachOneStored(cfg, other, value);
    var stored := OneStored(cfg, other, value);
    var looking := stored.(calls := stored.calls + [Call(request, Looking)]);
    Reach(cfg, stored, Arrive(request), looking);
    s := System(stored.cache, [stored.calls[0], Call(request, Returned(value))], stored.log + [Hit(1, value, 0)]);
    Reach(cfg, looking, Lookup(1, 0), s);
  }

  // ----- is the newest answer returned?

  /** Hit r reads what store p put, p's call had it from the authorizer at event q, and at event n,
      after q and before r, the authorizer gave an answer under the same key. */
  ghost predicate SupersededBy(cfg: Settings, s: System, r: nat, p: nat, q: nat, n: nat)
    requires IsHit(s, r)
  {
    && HitFrom(cfg, s, r, p) && q < p && GaveAnswer(s, q, s.log[p].call, s.log[p].value)
    && q < n < r && s.log[n].Answered? && EventHas(s, n, KeyOfHit(cfg, s, r), cfg)
  }

  ghost predicate IsHit(s: System, r: nat) {
    r < |s.log| && s.log[r].Hit? && s.log[r].call < |s.calls|
  }

  ghost function KeyOfHit(cfg: Settings, s: System, r: nat): string
    requires IsHit(s, r)
  {
    cfg.Key(s.calls[s.log[r].call].request)
  }

  /** The authorizer had given a newer answer than the one that hit r returned. */
  ghost predicate Superseded(cfg: Settings, s: System, r: nat)
    requires IsHit(s, r)
  {
    exists p: nat, q: nat, n: nat :: SupersededBy(cfg, s, r, p, q, n)
  }

  ghost predicate IsMiss(s: System, i: nat, c: nat) {
    i < |s.log| && s.log[i].Missed? && s.log[i].call == c
  }

  ghost predicate IsReturn(s: System, i: nat, c: nat) {
    i < |s.log| && (s.log[i].Answered? || s.log[i].Stored?) && s.log[i].call == c
  }

  /** Calls c and d were between their miss and their store at one time: each had missed before some
      answer to the other, or its store. */
  ghost predicate Overlapped(s: System, c: nat, d: nat) {
    exists i: nat, j: nat, a: nat, b: nat ::
      IsMiss(s, i, c) && IsMiss(s, j, d) && IsReturn(s, a, c) && IsReturn(s, b, d) && j < a && i < b
  }

  /** Event n is the latest answer of the authorizer under the key before event `end`. */
  ghost predicate LatestAnswer(cfg: Settings, s: System, n: nat, key: string, end: nat) {
    && n < end <= |s.log| && s.log[n].Answered? && EventHas(s, n, key, cfg)
    && forall m :: n < m < end && s.log[m].Answered? ==> !EventHas(s, m, key, cfg)
  }

  /** A newer answer can only have gone to a call that was under way together with the one whose store
      was read: it missed before that store, and was answered after that call. */
  lemma SupersededOverlaps(cfg: Settings, s: System, r: nat, p: nat, q: nat, n: nat)
    requires LogOk(cfg, s) && IsHit(s, r) && SupersededBy(cfg, s, r, p, q, n)
    ensures s.log[n].call != s.log[p].call && Overlapped(s, s.log[p].call, s.log[n].call)
    ensures exists j :: 0 <= j < p && IsMiss(s, j, s.log[n].call)
  {
    var c, d := s.log[p].call, s.log[n].call;
    assert EventOk(cfg, s, n) && EventOk(cfg, s, q);
    var i :| 0 <= i < q && s.log[i].Missed? && s.log[i].call == c;
    var j :| 0 <= j < n && s.log[j].Missed? && s.log[j].call == d;
    assert EventHas(s, j, KeyOfHit(cfg, s, r), cfg);
    assert j < p;
    assert IsMiss(s, i, c) && IsMiss(s, j, d) && IsReturn(s, p, c) && IsReturn(s, n, d);
  }

  /** A hit is superseded exactly when some other call under its key had missed before the store that
      it reads, and was answered after that store's call was, but before the hit. */
  lemma SupersededExactly(cfg: Settings, s: System, r: nat, p: nat, q: nat)
    requires cfg.Valid() && Reachable(cfg, s) && IsHit(s, r)
    requires HitFrom(cfg, s, r, p) && q < p && GaveAnswer(s, q, s.log[p].call, s.log[p].value)
    ensures Superseded(cfg, s, r) <==>
              exists j: nat, n: nat, d: nat ::
                && d != s.log[p].call && j < p && IsMiss(s, j, d)
                && q < n < r && s.log[n].Answered? && s.log[n].call == d && EventHas(s, n, KeyOfHit(cfg, s, r), cfg)
  {
    ReachableInv(cfg, s);
    if Superseded(cfg, s, r) {
      var p': nat, q': nat, n: nat :| SupersededBy(cfg, s, r, p', q', n);
      SameSource(cfg, s, r, p, q, p', q');
      SupersededOverlaps(cfg, s, r, p, q, n);
    }
    if j: nat, n: nat, d: nat :|
      && d != s.log[p].call && j < p && IsMiss(s, j, d)
      && q < n < r && s.log[n].Answered? && s.log[n].call == d && EventHas(s, n, KeyOfHit(cfg, s, r), cfg)
    {
      assert SupersededBy(cfg, s, r, p, q, n);
    }
  }

  /** The store that a hit reads, and the answer that was stored, are unique. */
  lemma SameSource(cfg: Settings, s: System, r: nat, p: nat, q: nat, p': nat, q': nat)
    requires LogOk(cfg, s) && IsHit(s, r) && HitFrom(cfg, s, r, p) && HitFrom(cfg, s, r, p')
    requires q < p && GaveAnswer(s, q, s.log[p].call, s.log[p].value)
    requires q' < p' && GaveAnswer(s, q', s.log[p'].call, s.log[p'].value)
    ensures p == p' && q == q'
  {
    assert EventOk(cfg, s, q) && EventOk(cfg, s, q');
  }

  /** No two calls under this key were ever between miss and store at once. */
  ghost predicate NoOverlap(cfg: Settings, s: System, key: string) {
    forall c, d :: 0 <= c < d < |s.calls| ==>
      (cfg.Key(s.calls[c].request) == key && cfg.Key(s.calls[d].request) == key ==> !Overlapped(s, c, d))
  }

  /** While no two calls under one key are between miss and store at once, the newest answer is
      returned: every hit under that key gives the latest answer of the authorizer. */
  lemma NewestAnswerReturned(cfg: Settings, s: System, r: nat)
    requires cfg.Valid() && Reachable(cfg, s) && IsHit(s, r)
    requires NoOverlap(cfg, s, KeyOfHit(cfg, s, r))
    ensures !Superseded(cfg, s, r)
    ensures exists n: nat :: LatestAnswer(cfg, s, n, KeyOfHit(cfg, s, r), r) && s.log[n].value == s.log[r].value
  {
    ReachableInv(cfg, s);
    if p: nat, q: nat, n: nat :| SupersededBy(cfg, s, r, p, q, n) {
      SupersededOverlaps(cfg, s, r, p, q, n);
      OverlappedSymmetric(s, s.log[p].call, s.log[n].call);
      assert false;
    }
    assert EventOk(cfg, s, r);
    var p: nat :| HitFrom(cfg, s, r, p);
    var q :| 0 <= q < p && GaveAnswer(s, q, s.log[p].call, s.log[p].value);
    forall m | q < m < r && s.log[m].Answered? ensures !EventHas(s, m, KeyOfHit(cfg, s, r), cfg) {
      assert !SupersededBy(cfg, s, r, p, q, m);
    }
    assert LatestAnswer(cfg, s, q, KeyOfHit(cfg, s, r), r);
  }

  lemma OverlappedSymmetric(s: System, c: nat, d: nat)
    requires Overlapped(s, c, d)
    ensures Overlapped(s, d, c)
  {
    var i: nat, j: nat, a: nat, b: nat :|
      IsMiss(s, i, c) && IsMiss(s, j, d) && IsReturn(s, a, c) && IsReturn(s, b, d) && j < a && i < b;
  }

  // ----- calls that are never under way together

  /** Between miss and store. */
  predicate Pending(s: System, c: nat) {
    c < |s.calls| && (s.calls[c].phase.Asking? || s.calls[c].phase.Storing?)
  }

  ghost predicate UnderKey(cfg: Settings, s: System, c: nat, key: string) {
    c < |s.calls| && cfg.Key(s.calls[c].request) == key
  }

  /** Two calls under the key. */
  ghost predicate BothUnder(cfg: Settings, s: System, key: string, c: nat, d: nat) {
    c != d && UnderKey(cfg, s, c, key) && UnderKey(cfg, s, d, key)
  }

  ghost predicate Alone(cfg: Settings, s: System, key: string) {
    forall c: nat, d: nat :: BothUnder(cfg, s, key, c, d) ==> !(Pending(s, c) && Pending(s, d))
  }

  /** In no state of this run are two calls under the key pending. */
  ghost predicate AloneThroughout(cfg: Settings, s: System, steps: seq<Step>, key: string)
    decreases |steps|
  {
    && Alone(cfg, s, key)
    && (steps != [] && Enabled(s, steps[0]) ==> AloneThroughout(cfg, Apply(cfg, s, steps[0]), steps[1..], key))
  }

  /** No other call under the key has returned since a pending call missed. */
  ghost predicate Apart(cfg: Settings, s: System, key: string) {
    && (forall p :: 0 <= p < |s.log| ==> s.log[p].call < |s.calls| && !s.calls[s.log[p].call].phase.Looking?)
    && (forall c: nat, d: nat, i: nat, b: nat ::
          BothUnder(cfg, s, key, c, d) && Pending(s, c) && IsMiss(s, i, c) && IsReturn(s, b, d) ==> b < i)
    && (forall c: nat, d: nat :: BothUnder(cfg, s, key, c, d) ==> !Overlapped(s, c, d))
  }

  /** What a step logs: a miss by a call that looked and now is pending, or a return by one that was. */
  lemma StepLogs(cfg: Settings, s: System, step: Step)
    requires Enabled(s, step)
    ensures var t := Apply(cfg, s, step);
            && Later(s, t) && |t.log| <= |s.log| + 1
            && (forall c :: 0 <= c < |t.calls| && t.calls[c].phase.Looking? ==>
                  c == |s.calls| || (c < |s.calls| && s.calls[c].phase.Looking?))
            && (forall c :: 0 <= c < |t.calls| && Pending(t, c) ==>
                  c < |s.calls| && (Pending(s, c) || s.calls[c].phase.Looking?))
            && (|t.log| > |s.log| ==>
                  var c := t.log[|s.log|].call;
                  && c < |s.calls| && !t.calls[c].phase.Looking?
                  && (IsReturn(t, |s.log|, c) ==> Pending(s, c)))
  {}

  lemma StepKeepsPendingApart(cfg: Settings, s: System, step: Step, key: string, c: nat, d: nat, i: nat, b: nat)
    requires Enabled(s, step) && Apart(cfg, s, key) && Alone(cfg, s, key)
    requires var t := Apply(cfg, s, step);
             BothUnder(cfg, t, key, c, d) && Pending(t, c) && IsMiss(t, i, c) && IsReturn(t, b, d)
    ensures b < i
  {
    var t := Apply(cfg, s, step);
    StepLogs(cfg, s, step);
    hide Apply, Enabled, Overlapped, Settings.Key;
    if i < |s.log| {
      assert IsMiss(s, i, c) && BothUnder(cfg, s, key, c, d);
      if b < |s.log| {
        assert IsReturn(s, b, d);
      }
    }
  }

  lemma StepKeepsNoOverlap(cfg: Settings, s: System, step: Step, key: string, c: nat, d: nat)
    requires Enabled(s, step) && Apart(cfg, s, key) && BothUnder(cfg, Apply(cfg, s, step), key, c, d)
    ensures !Overlapped(Apply(cfg, s, step), c, d)
  {
    var t := Apply(cfg, s, step);
    StepLogs(cfg, s, step);
    hide Apply, Enabled, Settings.Key;
    forall i: nat, j: nat, a: nat, b: nat |
      IsMiss(t, i, c) && IsMiss(t, j, d) && IsReturn(t, a, c) && IsReturn(t, b, d)
      ensures !(j < a && i < b)
    {
      assert BothUnder(cfg, s, key, c, d) && BothUnder(cfg, s, key, d, c);
      assert i < |s.log| ==> IsMiss(s, i, c);
      assert j < |s.log| ==> IsMiss(s, j, d);
      assert a < |s.log| ==> IsReturn(s, a, c);
      assert b < |s.log| ==> IsReturn(s, b, d);
    }
  }

  lemma {:induction false} AloneKeepsApart(cfg: Settings, s: System, steps: seq<Step>, t: System, key: string)
    requires Leads(cfg, s, steps, t) && AloneThroughout(cfg, s, steps, key) && Apart(cfg, s, key)
    ensures Apart(cfg, t, key)
    decreases |steps|
  {
    if steps != [] {
      var m := Apply(cfg, s, steps[0]);
      StepKeepsApart(cfg, s, steps[0], key);
      AloneKeepsApart(cfg, m, steps[1..], t, key);
    }
  }

  lemma StepKeepsApart(cfg: Settings, s: System, step: Step, key: string)
    requires Enabled(s, step) && Apart(cfg, s, key) && Alone(cfg, s, key)
    ensures Apart(cfg, Apply(cfg, s, step), key)
  {
    var t := Apply(cfg, s, step);
    StepLogs(cfg, s, step);
    forall c: nat, d: nat, i: nat, b: nat |
      BothUnder(cfg, t, key, c, d) && Pending(t, c) && IsMiss(t, i, c) && IsReturn(t, b, d)
      ensures b < i
    {
      StepKeepsPendingApart(cfg, s, step, key, c, d, i, b);
    }
    forall c: nat, d: nat | BothUnder(cfg, t, key, c, d) ensures !Overlapped(t, c, d) {
      StepKeepsNoOverlap(cfg, s, step, key, c, d);
    }
    hide Apply, Overlapped, Pending, IsMiss, IsReturn, BothUnder, Enabled, Alone;
  }

  /** So a run in which no two calls under one key are ever pending together has the newest answer in
      every hit under that key. */
  lemma AloneMeansNewest(cfg: Settings, steps: seq<Step>, s: System, r: nat)
    requires cfg.Valid() && Leads(cfg, INITIAL, steps, s) && IsHit(s, r)
    requires AloneThroughout(cfg, INITIAL, steps, KeyOfHit(cfg, s, r))
    ensures !Superseded(cfg, s, r)
    ensures exists n: nat :: LatestAnswer(cfg, s, n, KeyOfHit(cfg, s, r), r) && s.log[n].value == s.log[r].value
  {
    AloneKeepsApart(cfg, INITIAL, steps, s, KeyOfHit(cfg, s, r));
    hide Superseded, LatestAnswer, Overlapped, Leads;
    forall c, d | 0 <= c < d < |s.calls| && cfg.Key(s.calls[c].request) == KeyOfHit(cfg, s, r)
                  && cfg.Key(s.calls[d].request) == KeyOfHit(cfg, s, r)
      ensures !Overlapped(s, c, d)
    {
      assert BothUnder(cfg, s, KeyOfHit(cfg, s, r), c, d);
    }
    NewestAnswerReturned(cfg, s, r);
  }

  // ----- and where calls overlap, it need not be

  /** At some time from `earliest` on a call for the request misses: when it is not cached, or its entry
      has expired. */
  lemma CanMiss(cfg: Settings, s: System, request: Request, earliest: int) returns (now: int)
    ensures now >= earliest && Lru.Answer(s.cache, cfg.Key(request), now) == None
  {
    var i := Lru.Find(s.cache, cfg.Key(request));
    now := if i < |s.cache| && s.cache[i].expiresAt > earliest then s.cache[i].expiresAt else earliest;
  }

  /** Call c stores its answer, and the next call for its request reads it. */
  lemma StoreAndRead(cfg: Settings, s0: System, before: seq<Step>, s: System, c: nat, at: int)
      returns (steps: seq<Step>, t: System)
    requires cfg.Valid() && cfg.ttl > 0 && Inv(cfg, s0) && Leads(cfg, s0, before, s)
    requires c < |s.calls| && s.calls[c].phase.Storing?
    ensures Leads(cfg, s0, steps, t)
    ensures var value := s.calls[c].phase.answer;
            && t.log == s.log + [Stored(c, value, at), Hit(|s.calls|, value, at)]
            && t.calls == s.calls[c := Call(s.calls[c].request, Returned(value))]
                          + [Call(s.calls[c].request, Returned(value))]
  {
    hide Inv;
    var request, value := s.calls[c].request, s.calls[c].phase.answer;
    RunKeepsInv(cfg, s0, before, s);
    StoredIsFirst(cfg, s, c, at);
    var s1 := Apply(cfg, s, Store(c, at));
    var s2 := Apply(cfg, s1, Arrive(request));
    t := Apply(cfg, s2, Lookup(|s.calls|, at));
    Extend(cfg, s0, before, s, Store(c, at));
    Extend(cfg, s0, before + [Store(c, at)], s1, Arrive(request));
    Extend(cfg, s0, before + [Store(c, at)] + [Arrive(request)], s2, Lookup(|s.calls|, at));
    steps := before + [Store(c, at)] + [Arrive(request)] + [Lookup(|s.calls|, at)];
  }

  lemma StoredIsFirst(cfg: Settings, s: System, c: nat, at: int)
    requires cfg.Valid() && cfg.ttl > 0 && Inv(cfg, s) && c < |s.calls| && s.calls[c].phase.Storing?
    ensures Lru.Answer(Apply(cfg, s, Store(c, at)).cache, cfg.Key(s.calls[c].request), at)
         == Some(s.calls[c].phase.answer)
  {
    var entry := Lru.Entry(cfg.Key(s.calls[c].request), s.calls[c].phase.answer, at + cfg.ttl);
    Lru.PutIsAnswered(s.cache, cfg.capacity, entry, at);
  }

  /** In t the authorizer's newer answer n is read at `first`, and the older one again at r. */
  ghost predicate GoesBack(cfg: Settings, t: System, first: nat, r: nat) {
    && IsHit(t, first) && IsHit(t, r) && KeyOfHit(cfg, t, first) == KeyOfHit(cfg, t, r)
    && exists p: nat, q: nat, n: nat ::
         SupersededBy(cfg, t, r, p, q, n) && n < first < r && t.log[first].value == t.log[n].value
  }

  /** The call answered first stores last. */
  lemma OlderStoredLast(cfg: Settings, s0: System, before: seq<Step>, s: System, c: nat, d: nat, q: nat, n: nat,
                        at: int)
      returns (steps: seq<Step>, t: System)
    requires cfg.Valid() && cfg.ttl > 0 && Inv(cfg, s0) && Leads(cfg, s0, before, s)
    requires c < |s.calls| && d < |s.calls| && c != d && s.calls[c].phase.Storing? && s.calls[d].phase.Storing?
    requires cfg.Key(s.calls[c].request) == cfg.Key(s.calls[d].request) && q < n < |s.log|
    requires GaveAnswer(s, q, c, s.calls[c].phase.answer) && GaveAnswer(s, n, d, s.calls[d].phase.answer)
    ensures Leads(cfg, s0, steps, t) && GoesBack(cfg, t, |s.log| + 1, |s.log| + 3)
    ensures KeyOfHit(cfg, t, |s.log| + 3) == cfg.Key(s.calls[c].request)
    ensures t.log[|s.log| + 1].value == s.calls[d].phase.answer
    ensures t.log[|s.log| + 3].value == s.calls[c].phase.answer
  {
    hide Inv, Leads;
    var m;
    steps, m := StoreAndRead(cfg, s0, before, s, d, at);
    steps, t := StoreAndRead(cfg, s0, steps, m, c, at);
    var r := |s.log| + 3;
    assert t.log[r - 1] == Stored(c, s.calls[c].phase.answer, at);
    assert forall i :: 0 <= i < |s.log| ==> t.log[i] == s.log[i];
    assert GaveAnswer(t, q, c, s.calls[c].phase.answer) && AnsweredBefore(t, c, s.calls[c].phase.answer, r - 1);
    assert LatestStore(cfg, t, r - 1, KeyOfHit(cfg, t, r), r);
    assert SupersededBy(cfg, t, r, r - 1, q, n);
  }

  /** A pending call has its answer, or gets this one. */
  lemma Settle(cfg: Settings, s0: System, before: seq<Step>, s: System, c: nat, answer: Authorization, at: int)
      returns (steps: seq<Step>, t: System, q: nat)
    requires cfg.Valid() && Inv(cfg, s0) && Leads(cfg, s0, before, s) && Pending(s, c)
    ensures Leads(cfg, s0, steps, t) && s.log <= t.log && q < |t.log| && |t.calls| == |s.calls|
    ensures t.calls[c].request == s.calls[c].request && t.calls[c].phase.Storing?
    ensures forall d :: 0 <= d < |s.calls| && d != c ==> t.calls[d] == s.calls[d]
    ensures GaveAnswer(t, q, c, t.calls[c].phase.answer)
    ensures s.calls[c].phase.Asking? ==> t.calls[c].phase.answer == answer && q == |s.log|
  {
    RunKeepsInv(cfg, s0, before, s);
    if s.calls[c].phase.Asking? {
      t, q := Apply(cfg, s, Reply(c, Success(answer), at)), |s.log|;
      Extend(cfg, s0, before, s, Reply(c, Success(answer), at));
      steps := before + [Reply(c, Success(answer), at)];
    } else {
      steps, t := before, s;
      assert SoundCall(s, c);
      q :| 0 <= q < |s.log| && GaveAnswer(s, q, c, s.calls[c].phase.answer);
    }
  }

  lemma SettleBoth(cfg: Settings, s: System, c: nat, d: nat, older: Authorization, newer: Authorization,
                   at: int)
      returns (steps: seq<Step>, t: System, q: nat, n: nat)
    requires cfg.Valid() && Inv(cfg, s) && Pending(s, c) && Pending(s, d) && c != d
    ensures Leads(cfg, s, steps, t) && |t.calls| == |s.calls| && q < |t.log| && n < |t.log| && q != n
    ensures t.calls[c].request == s.calls[c].request && t.calls[c].phase.Storing?
    ensures t.calls[d].request == s.calls[d].request && t.calls[d].phase.Storing?
    ensures GaveAnswer(t, q, c, t.calls[c].phase.answer) && GaveAnswer(t, n, d, t.calls[d].phase.answer)
    ensures s.calls[c].phase.Asking? && s.calls[d].phase.Asking? ==>
              t.calls[c].phase.answer == older && t.calls[d].phase.answer == newer && q < n
  {
    hide Inv;
    var m;
    assert Leads(cfg, s, [], s);
    steps, m, q := Settle(cfg, s, [], s, c, older, at);
    steps, t, n := Settle(cfg, s, steps, m, d, newer, at);
    assert t.log[q] == m.log[q];
  }

  /** From every reachable state in which two calls under one key are between miss and store, some
      continuation, all at one time of choice, returns the newer answer to one call and then the older
      one to another, whatever the authorizer answers. */
  lemma OlderAnswerCanReturn(cfg: Settings, s: System, c: nat, d: nat, older: Authorization, newer: Authorization,
                             at: int)
      returns (steps: seq<Step>, t: System, first: nat, r: nat)
    requires cfg.Valid() && cfg.ttl > 0 && Reachable(cfg, s)
    requires Pending(s, c) && Pending(s, d) && c != d && cfg.Key(s.calls[c].request) == cfg.Key(s.calls[d].request)
    ensures Leads(cfg, s, steps, t) && GoesBack(cfg, t, first, r)
    ensures KeyOfHit(cfg, t, r) == cfg.Key(s.calls[c].request)
    ensures s.calls[c].phase.Asking? && s.calls[d].phase.Asking? ==>
              t.log[first].value == newer && t.log[r].value == older
  {
    ReachableInv(cfg, s);
    hide Inv, GoesBack, Reachable, Settings.Key, Leads;
    var u, q, n;
    steps, u, q, n := SettleBoth(cfg, s, c, d, older, newer, at);
    first, r := |u.log| + 1, |u.log| + 3;
    if q < n {
      steps, t := OlderStoredLast(cfg, s, steps, u, c, d, q, n, at);
    } else {
      steps, t := OlderStoredLast(cfg, s, steps, u, d, c, n, q, at);
    }
  }

  /** Such states are reachable for every request. */
  lemma CallsCanOverlap(cfg: Settings, request: Request) returns (s: System)
    ensures Reachable(cfg, s) && |s.calls| == 2 && forall c :: 0 <= c < 2 ==> s.calls[c] == Call(request, Asking)
  {
    var looking, asking := Call(request, Looking), Call(request, Asking);
    assert Leads(cfg, INITIAL, [], INITIAL);
    var s1, s2 := System([], [looking], []), System([], [looking, looking], []);
    Reach(cfg, INITIAL, Arrive(request), s1);
    Reach(cfg, s1, Arrive(request), s2);
    var s3 := System([], [asking, looking], [Missed(0, 0)]);
    Reach(cfg, s2, Lookup(0, 0), s3);
    s := System([], [asking, asking], [Missed(0, 0), Missed(1, 0)]);
    Reach(cfg, s3, Lookup(1, 0), s);
  }
}
