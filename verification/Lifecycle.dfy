/** The life of objects in one bucket. Any number of clients send Batches, replay presigned uploads
    and ask for verification; every store call is one atomic step and steps interleave freely. The
    bucket starts empty, only accepted presigned uploads write to it, and nothing is deleted. */
module Lifecycle {
  import opened Durations
  import opened Wrappers
  import opened GoText
  import opened ObjectKey
  import opened Forge
  import opened Protocol
  import opened S3Store

  const MAXIMUM_MAX_OBJECT_SIZE: int := 5_000_000_000

  datatype World = World(hash: Body -> string, maxObjectSize: int64, host: string, presignTtl: nat) {
    /** The bound that configuration validation enforces. */
    ghost predicate Valid() {
      0 < maxObjectSize <= MAXIMUM_MAX_OBJECT_SIZE
    }
  }

  /** How far one object of a Batch has come: Head and presigning are separate store calls. */
  datatype Phase = Queued | LookedUp(head: Result<nat, StoreError>) | Answered(outcome: Outcome)

  datatype Batch = Batch(input: BatchRequest, authorization: Authorization, ctx: Context, phases: seq<Phase>)

  /** A presigned upload, in some client's hands for ever, and the Batch object it was issued for. */
  datatype Issued = Issued(put: S3Store.Action, batch: nat, index: nat)

  /** An accepted PUT. */
  datatype Creation = Creation(key: string, body: Body, issued: nat)

  datatype State = State(bucket: Bucket, batches: seq<Batch>, issued: seq<Issued>, created: seq<Creation>)

  const EMPTY := State(map[], [], [], [])

  datatype Step =
    | Admit(input: BatchRequest, hasToken: bool, authorization: Result<Authorization, Error>,
            verifyUrl: string, credentials: string)
    | LookUp(batch: nat, index: nat, outage: Option<ProviderError>)
    | Finish(batch: nat, index: nat, signs: bool)
    | Upload(issued: nat, body: Body)

  predicate HasPhase(s: State, b: nat, i: nat) {
    b < |s.batches| && i < |s.batches[b].phases| == |s.batches[b].input.objects|
  }

  predicate Enabled(s: State, step: Step) {
    match step
    case Admit(_, _, _, _, _) => true
    case LookUp(b, i, _) => HasPhase(s, b, i) && s.batches[b].phases[i].Queued?
    case Finish(b, i, _) => HasPhase(s, b, i) && s.batches[b].phases[i].LookedUp?
    case Upload(k, _) => k < |s.issued|
  }

  function SetPhase(s: State, b: nat, i: nat, phase: Phase): State
    requires HasPhase(s, b, i)
  {
    s.(batches := s.batches[b := s.batches[b].(phases := s.batches[b].phases[i := phase])])
  }

  function Presign(w: World, ctx: Context, o: RequestObject, signs: bool): Result<S3Store.Action, StoreError> {
    if ctx.operation == "download" then PresignDownload(w.host, w.presignTtl, ctx.repositoryID, o.oid, signs)
    else PresignUpload(w.host, w.presignTtl, ctx.repositoryID, o.oid, o.size, signs)
  }

  function Apply(w: World, s: State, step: Step): State
    requires Enabled(s, step)
  {
    match step
    case Admit(input, hasToken, authorization, verifyUrl, credentials) =>
      (match AdmitBatch(w.maxObjectSize, input, hasToken, authorization)
       case Refused(_) => s
       case Admitted(repositoryID) =>
         var ctx := Context(input.operation, repositoryID, verifyUrl, credentials);
         s.(batches := s.batches + [Batch(input, authorization.value, ctx, seq(|input.objects|, _ => Queued))]))
    case LookUp(b, i, outage) =>
      var batch := s.batches[b];
      SetPhase(s, b, i, LookedUp(Head(s.bucket, batch.ctx.repositoryID, batch.input.objects[i].oid, outage)))
    case Finish(b, i, signs) =>
      var batch := s.batches[b];
      var o, head := batch.input.objects[i], batch.phases[i].head;
      var presigned := Presign(w, batch.ctx, o, signs);
      var t := SetPhase(s, b, i, Answered(ProcessObject(batch.ctx, o, head, presigned)));
      if NeedsPresign(batch.ctx.operation, o, head) && batch.ctx.operation != "download" && presigned.Success?
      then t.(issued := s.issued + [Issued(presigned.value, b, i)]) else t
    case Upload(k, body) =>
      var put := s.issued[k].put;
      if PutAccepted(s.bucket, put, body, w.hash)
      then s.(bucket := s.bucket[put.key := body], created := s.created + [Creation(put.key, body, k)]) else s
  }

  ghost predicate Leads(w: World, s: State, steps: seq<Step>, t: State)
    decreases |steps|
  {
    if steps == [] then s == t
    else Enabled(s, steps[0]) && Leads(w, Apply(w, s, steps[0]), steps[1..], t)
  }

  ghost predicate Reachable(w: World, s: State) {
    exists steps :: Leads(w, EMPTY, steps, s)
  }

  // ----- what every run keeps

  ghost predicate BatchOk(w: World, b: Batch) {
    && Acceptable(w.maxObjectSize, b.input)
    && |b.phases| == |b.input.objects|
    && b.ctx.operation == b.input.operation
    && b.ctx.repositoryID == b.authorization.repositoryID
    && b.authorization.permission.AtLeast(if b.input.operation == "upload" then Write else Read)
  }

  /** What a client learns when its object's processing ends. */
  ghost predicate Told(s: State, b: nat, i: nat, outcome: Outcome) {
    HasPhase(s, b, i) && s.batches[b].phases[i] == Answered(outcome)
  }

  /** The object a presigned upload was issued for. */
  function ObjectOf(s: State, k: nat): RequestObject
    requires k < |s.issued| && HasPhase(s, s.issued[k].batch, s.issued[k].index)
  {
    s.batches[s.issued[k].batch].input.objects[s.issued[k].index]
  }

  ghost predicate IssuedOk(w: World, s: State, k: nat)
    requires k < |s.issued|
  {
    var it := s.issued[k];
    && HasPhase(s, it.batch, it.index)
    && s.batches[it.batch].input.operation == "upload"
    && PresignUpload(w.host, w.presignTtl, s.batches[it.batch].ctx.repositoryID, ObjectOf(s, k).oid,
                     ObjectOf(s, k).size, true) == Success(it.put)
    && exists outcome :: Told(s, it.batch, it.index, outcome) && OffersUpload(outcome, it.put)
  }

  /** The response hands out exactly this presigned upload. */
  ghost predicate OffersUpload(outcome: Outcome, put: S3Store.Action) {
    && outcome.result == "upload"
    && "upload" in outcome.response.actions
    && outcome.response.actions["upload"] == FromStorage(put, false)
  }

  /** A creation stored a body of its object's size and hash under its object's key, for good. */
  ghost predicate CreationOk(w: World, s: State, c: Creation) {
    && c.issued < |s.issued| && HasPhase(s, s.issued[c.issued].batch, s.issued[c.issued].index)
    && c.key == s.issued[c.issued].put.key
    && |c.body| == ObjectOf(s, c.issued).size && w.hash(c.body) == ObjectOf(s, c.issued).oid
    && c.key in s.bucket && s.bucket[c.key] == c.body
  }

  ghost predicate CreatedOnce(s: State) {
    && (forall i, j :: 0 <= i < j < |s.created| ==> s.created[i].key != s.created[j].key)
    && (forall key <- s.bucket :: exists i :: 0 <= i < |s.created| && s.created[i].key == key)
  }

  /** A size that Head reported is the size of the stored object. */
  ghost predicate HeadStands(s: State, repositoryID: int64, oid: string, head: Result<nat, StoreError>) {
    head.Success? ==>
      && Key(repositoryID, oid).Success? && Key(repositoryID, oid).value in s.bucket
      && |s.bucket[Key(repositoryID, oid).value]| == head.value
  }

  /** The answer is what processObject makes of a Head answer that still stands. */
  ghost predicate AnsweredFrom(w: World, s: State, b: nat, i: nat, outcome: Outcome, head: Result<nat, StoreError>,
                               signs: bool)
    requires HasPhase(s, b, i)
  {
    var ctx, o := s.batches[b].ctx, s.batches[b].input.objects[i];
    HeadStands(s, ctx.repositoryID, o.oid, head) && outcome == ProcessObject(ctx, o, head, Presign(w, ctx, o, signs))
  }

  /** The presigned upload of an answer is among those issued, for this very object. */
  ghost predicate IsIssued(s: State, b: nat, i: nat, outcome: Outcome) {
    exists k :: 0 <= k < |s.issued| && s.issued[k].batch == b && s.issued[k].index == i
             && OffersUpload(outcome, s.issued[k].put)
  }

  ghost predicate PhaseOk(w: World, s: State, b: nat, i: nat)
    requires HasPhase(s, b, i)
  {
    match s.batches[b].phases[i]
    case Queued => true
    case LookedUp(head) => HeadStands(s, s.batches[b].ctx.repositoryID, s.batches[b].input.objects[i].oid, head)
    case Answered(outcome) =>
      && (exists head, signs :: AnsweredFrom(w, s, b, i, outcome, head, signs))
      && (outcome.result == "upload" ==> IsIssued(s, b, i, outcome))
  }

  ghost predicate PhasesOk(w: World, s: State) {
    forall b: nat, i: nat :: HasPhase(s, b, i) ==> PhaseOk(w, s, b, i)
  }

  ghost predicate Inv(w: World, s: State) {
    && (forall b <- s.batches :: BatchOk(w, b))
    && PhasesOk(w, s)
    && (forall k :: 0 <= k < |s.issued| ==> IssuedOk(w, s, k))
    && (forall c <- s.created :: CreationOk(w, s, c))
    && CreatedOnce(s)
  }

  /** A later state: batches keep what they were admitted with, presigned uploads stay usable, and no
      stored object has changed or gone. */
  ghost predicate Later(s: State, t: State) {
    && |s.batches| <= |t.batches|
    && (forall b :: 0 <= b < |s.batches| ==>
          && t.batches[b].input == s.batches[b].input && t.batches[b].ctx == s.batches[b].ctx
          && t.batches[b].authorization == s.batches[b].authorization
          && |t.batches[b].phases| == |s.batches[b].phases|
          && forall i :: 0 <= i < |s.batches[b].phases| && s.batches[b].phases[i].Answered? ==>
               t.batches[b].phases[i] == s.batches[b].phases[i])
    && s.issued <= t.issued
    && (forall key <- s.bucket :: key in t.bucket && t.bucket[key] == s.bucket[key])
  }

  lemma LaterKeepsIssued(w: World, s: State, t: State)
    requires Later(s, t) && forall k :: 0 <= k < |s.issued| ==> IssuedOk(w, s, k)
    ensures forall k :: 0 <= k < |s.issued| ==> IssuedOk(w, t, k)
  {
    forall k | 0 <= k < |s.issued| ensures IssuedOk(w, t, k) {
      assert IssuedOk(w, s, k) && t.issued[k] == s.issued[k];
      var it := s.issued[k];
      var outcome :| Told(s, it.batch, it.index, outcome) && OffersUpload(outcome, it.put);
      assert Told(t, it.batch, it.index, outcome);
    }
  }

  lemma LaterKeepsCreation(w: World, s: State, t: State, c: Creation)
    requires Later(s, t) && CreationOk(w, s, c)
    ensures CreationOk(w, t, c)
  {
    assert t.issued[c.issued] == s.issued[c.issued];
  }

  lemma LaterKeepsPhase(w: World, s: State, t: State, b: nat, i: nat)
    requires Later(s, t) && HasPhase(s, b, i) && PhaseOk(w, s, b, i)
    requires HasPhase(t, b, i) && t.batches[b].phases[i] == s.batches[b].phases[i]
    ensures PhaseOk(w, t, b, i)
  {
    if s.batches[b].phases[i].Answered? {
      var outcome := s.batches[b].phases[i].outcome;
      var head, signs :| AnsweredFrom(w, s, b, i, outcome, head, signs);
      assert AnsweredFrom(w, t, b, i, outcome, head, signs);
      if outcome.result == "upload" {
        var k :| 0 <= k < |s.issued| && s.issued[k].batch == b && s.issued[k].index == i
              && OffersUpload(outcome, s.issued[k].put);
        assert t.issued[k] == s.issued[k];
      }
    }
  }

  /** Only the phase of object (b, i) has changed. */
  lemma OnePhaseChanged(w: World, s: State, t: State, b: nat, i: nat)
    requires PhasesOk(w, s) && Later(s, t) && HasPhase(t, b, i) && PhaseOk(w, t, b, i)
    requires |t.batches| == |s.batches|
    requires forall c: nat, j: nat :: HasPhase(t, c, j) && (c != b || j != i) ==>
               HasPhase(s, c, j) && t.batches[c].phases[j] == s.batches[c].phases[j]
    ensures PhasesOk(w, t)
  {
    hide PhaseOk, Later;
    forall c: nat, j: nat | HasPhase(t, c, j) ensures PhaseOk(w, t, c, j) {
      if c != b || j != i {
        LaterKeepsPhase(w, s, t, c, j);
      }
    }
  }

  lemma AdmitKeepsPhases(w: World, s: State, t: State, admitted: Batch)
    requires PhasesOk(w, s) && Later(s, t) && t.batches == s.batches + [admitted]
    requires forall phase <- admitted.phases :: phase.Queued?
    ensures PhasesOk(w, t)
  {
    forall b: nat, i: nat | HasPhase(t, b, i) ensures PhaseOk(w, t, b, i) {
      if b < |s.batches| {
        assert HasPhase(s, b, i);
        LaterKeepsPhase(w, s, t, b, i);
      }
    }
  }

  lemma AdmitKeepsInv(w: World, s: State, step: Step)
    requires Inv(w, s) && step.Admit?
    ensures Inv(w, Apply(w, s, step)) && Later(s, Apply(w, s, step))
  {
    var t := Apply(w, s, step);
    var admission := AdmitBatch(w.maxObjectSize, step.input, step.hasToken, step.authorization);
    if admission.Admitted? {
      AdmittedExactly(w.maxObjectSize, step.input, step.hasToken, step.authorization, admission.repositoryID);
      AdmitKeepsPhases(w, s, t, t.batches[|s.batches|]);
    }
    SameBucketKeepsInv(w, s, t);
  }

  /** A Batch is admitted exactly when it meets the rule, has a token and the permission it needs; it then
      works, one queued object after the other, with what came with it. */
  lemma AdmittedBatch(w: World, s: State, step: Step)
    requires step.Admit?
    ensures var t := Apply(w, s, step);
            && t.bucket == s.bucket && t.issued == s.issued && t.created == s.created
            && (t.batches != s.batches <==>
                  && Acceptable(w.maxObjectSize, step.input) && step.hasToken && step.authorization.Success?
                  && (step.authorization.value.permission == Write
                      || (step.input.operation == "download" && step.authorization.value.permission == Read)))
            && (t.batches != s.batches ==>
                  && |t.batches| == |s.batches| + 1 && t.batches[..|s.batches|] == s.batches
                  && var batch := t.batches[|s.batches|];
                     && batch.input == step.input && batch.authorization == step.authorization.value
                     && batch.ctx.operation == step.input.operation
                     && batch.ctx.repositoryID == step.authorization.value.repositoryID
                     && batch.ctx.verifyUrl == step.verifyUrl && batch.ctx.credentials == step.credentials
                     && |batch.phases| == |step.input.objects| && forall phase <- batch.phases :: phase.Queued?)
  {
    if step.authorization.Success? {
      AdmittedExactly(w.maxObjectSize, step.input, step.hasToken, step.authorization,
                      step.authorization.value.repositoryID);
    }
    hide AdmitBatch, Consistent;
  }

  /** A step that touches neither the bucket nor the creations, given that batches and presigned
      uploads stay in order. */
  lemma SameBucketKeepsInv(w: World, s: State, t: State)
    requires Inv(w, s) && Later(s, t) && t.bucket == s.bucket && t.created == s.created
    requires (forall b <- t.batches :: BatchOk(w, b)) && PhasesOk(w, t)
    requires forall k :: |s.issued| <= k < |t.issued| ==> IssuedOk(w, t, k)
    ensures Inv(w, t)
  {
    LaterKeepsIssued(w, s, t);
    forall c | c in t.created ensures CreationOk(w, t, c) {
      LaterKeepsCreation(w, s, t, c);
    }
    assert CreatedOnce(t);
  }

  lemma PhaseIsLater(s: State, b: nat, i: nat, phase: Phase)
    requires HasPhase(s, b, i) && !s.batches[b].phases[i].Answered?
    ensures Later(s, SetPhase(s, b, i, phase))
  {}

  lemma PhaseKeepsBatches(w: World, s: State, b: nat, i: nat, phase: Phase)
    requires HasPhase(s, b, i) && forall c <- s.batches :: BatchOk(w, c)
    ensures forall c <- SetPhase(s, b, i, phase).batches :: BatchOk(w, c)
  {
    assert BatchOk(w, s.batches[b]);
  }

  lemma LookUpKeepsInv(w: World, s: State, step: Step)
    requires Inv(w, s) && Enabled(s, step) && step.LookUp?
    ensures Inv(w, Apply(w, s, step)) && Later(s, Apply(w, s, step))
  {
    var t := Apply(w, s, step);
    PhaseIsLater(s, step.batch, step.index, t.batches[step.batch].phases[step.index]);
    PhaseKeepsBatches(w, s, step.batch, step.index, t.batches[step.batch].phases[step.index]);
    OnePhaseChanged(w, s, t, step.batch, step.index);
    SameBucketKeepsInv(w, s, t);
  }

  lemma FinishedPhase(w: World, s: State, step: Step)
    requires Enabled(s, step) && step.Finish? && PhaseOk(w, s, step.batch, step.index)
    ensures PhaseOk(w, Apply(w, s, step), step.batch, step.index)
  {
    var t := Apply(w, s, step);
    var outcome := t.batches[step.batch].phases[step.index].outcome;
    assert AnsweredFrom(w, t, step.batch, step.index, outcome, s.batches[step.batch].phases[step.index].head,
                        step.signs);
    if outcome.result == "upload" {
      assert t.issued[|s.issued|].batch == step.batch && OffersUpload(outcome, t.issued[|s.issued|].put);
    }
  }

  lemma FinishedIssue(w: World, s: State, step: Step)
    requires Enabled(s, step) && step.Finish? && BatchOk(w, s.batches[step.batch])
    ensures forall k :: |s.issued| <= k < |Apply(w, s, step).issued| ==> IssuedOk(w, Apply(w, s, step), k)
  {
    var t := Apply(w, s, step);
    if t.issued != s.issued {
      var outcome := t.batches[step.batch].phases[step.index].outcome;
      assert Told(t, step.batch, step.index, outcome);
      assert OffersUpload(outcome, t.issued[|s.issued|].put);
      assert IssuedOk(w, t, |s.issued|);
    }
  }

  lemma FinishKeepsInv(w: World, s: State, step: Step)
    requires Inv(w, s) && Enabled(s, step) && step.Finish?
    ensures Inv(w, Apply(w, s, step)) && Later(s, Apply(w, s, step))
  {
    hide BatchOk, PhaseOk, IssuedOk, CreationOk, CreatedOnce, ProcessObject;
    var t := Apply(w, s, step);
    var phase := t.batches[step.batch].phases[step.index];
    PhaseIsLater(s, step.batch, step.index, phase);
    PhaseKeepsBatches(w, s, step.batch, step.index, phase);
    FinishedIssue(w, s, step);
    FinishedPhase(w, s, step);
    OnePhaseChanged(w, s, t, step.batch, step.index);
    SameBucketKeepsInv(w, s, t);
  }

  lemma UploadedBody(w: World, s: State, step: Step)
    requires Inv(w, s) && Enabled(s, step) && step.Upload? && Apply(w, s, step) != s
    ensures s.issued[step.issued].put.key !in s.bucket
    ensures CreationOk(w, Apply(w, s, step), Creation(s.issued[step.issued].put.key, step.body, step.issued))
  {
    hide PhasesOk, CreatedOnce, Told, OffersUpload;
    assert IssuedOk(w, s, step.issued);
    var it, o := s.issued[step.issued], ObjectOf(s, step.issued);
    UploadBinds(w.host, w.presignTtl, s.batches[it.batch].ctx.repositoryID, o.oid, o.size, it.put, s.bucket,
                step.body, w.hash);
  }

  lemma SameBatchesKeepPhases(w: World, s: State, t: State)
    requires PhasesOk(w, s) && Later(s, t) && t.batches == s.batches
    ensures PhasesOk(w, t)
  {
    hide PhaseOk, Later;
    forall b: nat, i: nat | HasPhase(t, b, i) ensures PhaseOk(w, t, b, i) {
      assert HasPhase(s, b, i);
      LaterKeepsPhase(w, s, t, b, i);
    }
  }

  lemma UploadKeepsInv(w: World, s: State, step: Step)
    requires Inv(w, s) && Enabled(s, step) && step.Upload?
    ensures Inv(w, Apply(w, s, step)) && Later(s, Apply(w, s, step))
  {
    var t := Apply(w, s, step);
    if t != s {
      UploadedBody(w, s, step);
      hide PutAccepted, BatchOk, IssuedOk, PhasesOk, CreationOk, CreatedOnce;
      var creation := Creation(s.issued[step.issued].put.key, step.body, step.issued);
      LaterKeepsIssued(w, s, t);
      SameBatchesKeepPhases(w, s, t);
      forall c | c in t.created ensures CreationOk(w, t, c) {
        if c in s.created {
          LaterKeepsCreation(w, s, t, c);
        } else {
          assert c == creation;
        }
      }
      NewKeyCreatedOnce(w, s, t, creation);
    }
  }

  lemma NewKeyCreatedOnce(w: World, s: State, t: State, c: Creation)
    requires CreatedOnce(s) && c.key !in s.bucket && forall d <- s.created :: CreationOk(w, s, d)
    requires t.bucket == s.bucket[c.key := c.body] && t.created == s.created + [c]
    ensures CreatedOnce(t)
  {
    forall i | 0 <= i < |s.created| ensures s.created[i].key != c.key {
      assert s.created[i] in s.created;
    }
    forall key | key in t.bucket ensures exists i :: 0 <= i < |t.created| && t.created[i].key == key {
      if key == c.key {
        assert t.created[|s.created|].key == key;
      } else {
        var i :| 0 <= i < |s.created| && s.created[i].key == key;
        assert t.created[i].key == key;
      }
    }
  }

  lemma StepKeepsInv(w: World, s: State, step: Step)
    requires Inv(w, s) && Enabled(s, step)
    ensures Inv(w, Apply(w, s, step)) && Later(s, Apply(w, s, step))
  {
    match step
    case Admit(_, _, _, _, _) => AdmitKeepsInv(w, s, step);
    case LookUp(_, _, _) => LookUpKeepsInv(w, s, step);
    case Finish(_, _, _) => FinishKeepsInv(w, s, step);
    case Upload(_, _) => UploadKeepsInv(w, s, step);
  }

  lemma {:induction false} RunKeepsInv(w: World, s: State, steps: seq<Step>, t: State)
    requires Inv(w, s) && Leads(w, s, steps, t)
    ensures Inv(w, t) && Later(s, t)
    decreases |steps|
  {
    if steps != [] {
      StepKeepsInv(w, s, steps[0]);
      RunKeepsInv(w, Apply(w, s, steps[0]), steps[1..], t);
    }
  }

  lemma ReachableInv(w: World, s: State)
    requires Reachable(w, s)
    ensures Inv(w, s)
  {
    var steps :| Leads(w, EMPTY, steps, s);
    RunKeepsInv(w, EMPTY, steps, s);
  }

  // ----- safety

  /** Batch b was an upload by a holder of Write on repository `repositoryID`, and asked for this
      object. */
  ghost predicate GrantedUpload(s: State, b: nat, repositoryID: int64, oid: string, size: int) {
    && b < |s.batches|
    && s.batches[b].input.operation == "upload"
    && s.batches[b].authorization == Authorization(repositoryID, Write, s.batches[b].authorization.canonicalName)
    && exists o <- s.batches[b].input.objects :: o.oid == oid && o.size == size
  }

  /** Every stored object is well placed: its key spells a repository and an OID, its body hashes to
      that OID and is within the size limit, exactly one accepted PUT created it, and a Batch with
      Write permission on that very repository had asked for it. */
  ghost predicate WellPlaced(w: World, s: State, key: string)
    requires key in s.bucket
  {
    match ParseKey(key)
    case None => false
    case Some((repositoryID, oid)) =>
      && w.hash(s.bucket[key]) == oid
      && |s.bucket[key]| <= w.maxObjectSize
      && (exists i :: 0 <= i < |s.created| && s.created[i].key == key && s.created[i].body == s.bucket[key]
            && forall j :: 0 <= j < |s.created| && s.created[j].key == key ==> j == i)
      && exists b :: GrantedUpload(s, b, repositoryID, oid, |s.bucket[key]|)
  }

  /** Safety over every run, also when HEAD wrongly reports a stored object as absent: conditional
      creation alone protects it. */
  lemma StoredObjectsAreWellPlaced(w: World, s: State, key: string)
    requires Reachable(w, s) && key in s.bucket
    ensures WellPlaced(w, s, key)
    ensures w.Valid() ==> |s.bucket[key]| <= 5_000_000_000
  {
    ReachableInv(w, s);
    var i :| 0 <= i < |s.created| && s.created[i].key == key;
    var c := s.created[i];
    assert c in s.created;
    var it, o := s.issued[c.issued], ObjectOf(s, c.issued);
    IssuedFor(w, s, c.issued);
    assert ParseKey(key) == Some((s.batches[it.batch].ctx.repositoryID, o.oid));
    assert GrantedUpload(s, it.batch, s.batches[it.batch].ctx.repositoryID, o.oid, |c.body|);
  }

  /** A presigned upload's key spells the repository and OID of the Batch object it was issued for. */
  lemma IssuedFor(w: World, s: State, k: nat)
    requires Inv(w, s) && k < |s.issued|
    ensures IssuedOk(w, s, k)
    ensures var it, o := s.issued[k], ObjectOf(s, k);
            && ParseKey(it.put.key) == Some((s.batches[it.batch].ctx.repositoryID, o.oid))
            && o.size <= w.maxObjectSize
            && GrantedUpload(s, it.batch, s.batches[it.batch].ctx.repositoryID, o.oid, o.size)
  {
    hide PhasesOk, CreatedOnce, CreationOk, Told, OffersUpload;
    assert IssuedOk(w, s, k);
    var it, o := s.issued[k], ObjectOf(s, k);
    var batch := s.batches[it.batch];
    assert BatchOk(w, batch) && ValidObject(w.maxObjectSize, batch.input.objects[it.index]);
    KeyInvertible(it.put.key, batch.ctx.repositoryID, o.oid);
    assert o in batch.input.objects;
  }

  /** No object ever lies under a repository's prefix without a Write grant on that repository. */
  lemma RepositoriesAreIsolated(w: World, s: State, key: string, repositoryID: int64)
    requires Reachable(w, s) && key in s.bucket && RepositoryPrefix(repositoryID) <= key
    ensures exists b, oid ::
              GrantedUpload(s, b, repositoryID, oid, |s.bucket[key]|) && Key(repositoryID, oid) == Success(key)
  {
    StoredObjectsAreWellPlaced(w, s, key);
    var (owner, oid) := ParseKey(key).value;
    KeyInvertible(key, owner, oid);
    KeysStayInTheirRepository(key, owner, repositoryID, oid);
    var b :| GrantedUpload(s, b, owner, oid, |s.bucket[key]|);
  }

  /** Once created, an object keeps its body in every later state. */
  lemma ObjectsNeverChange(w: World, s: State, steps: seq<Step>, t: State, key: string)
    requires Reachable(w, s) && Leads(w, s, steps, t) && key in s.bucket
    ensures key in t.bucket && t.bucket[key] == s.bucket[key]
  {
    ReachableInv(w, s);
    RunKeepsInv(w, s, steps, t);
  }

  // ----- what clients are told

  function HeadIn(s: State, oid: string, outage: Option<ProviderError>): int64 -> Result<nat, StoreError> {
    repositoryID => Head(s.bucket, repositoryID, oid, outage)
  }

  /** Verify's answer to an authorized request in state s. */
  function VerifyIn(w: World, s: State, o: RequestObject, authorization: Authorization,
                    outage: Option<ProviderError>): Verdict
  {
    Verify(w.maxObjectSize, o, true, Success(authorization), HeadIn(s, o.oid, outage))
  }

  /** Verify tells an authorized writer the truth about the bucket: success exactly for a stored
      object of the given size, 422 for another size, 404 where nothing is seen, 503 otherwise. */
  lemma VerifyTellsTheTruth(w: World, s: State, o: RequestObject, a: Authorization, outage: Option<ProviderError>)
    requires ValidObject(w.maxObjectSize, o) && a.permission == Write
    ensures Key(a.repositoryID, o.oid).Success?
    ensures var key, verdict := Key(a.repositoryID, o.oid).value, VerifyIn(w, s, o, a, outage);
            && (verdict == Verified <==> outage == None && key in s.bucket && |s.bucket[key]| == o.size)
            && (verdict == Unverified(Status(404, None)) <==> SeemsAbsent(s.bucket, key, outage))
            && (verdict == Unverified(Status(422, None)) <==>
                  outage == None && key in s.bucket && |s.bucket[key]| != o.size)
            && (verdict == Unverified(Status(503, None)) <==> outage.Some? && !SeemsAbsent(s.bucket, key, outage))
  {
    HeadTellsTheTruth(s.bucket, a.repositoryID, o.oid, outage, o.size);
  }

  /** The Head answer of an object that was looked up stays until its processing ends. */
  lemma OthersKeepPhase(w: World, s: State, step: Step, b: nat, i: nat)
    requires Enabled(s, step) && HasPhase(s, b, i) && s.batches[b].phases[i].LookedUp?
    requires !(step.Finish? && step.batch == b && step.index == i)
    ensures HasPhase(Apply(w, s, step), b, i)
    ensures Apply(w, s, step).batches[b].phases[i] == s.batches[b].phases[i]
  {}

  /** Whatever happens in between, the answer is made of the Head answer and of the presigner's. */
  lemma {:induction false} AnsweredBySigning(w: World, s: State, b: nat, i: nat, steps: seq<Step>, t: State,
                                             outcome: Outcome) returns (signs: bool)
    requires Inv(w, s) && HasPhase(s, b, i) && s.batches[b].phases[i].LookedUp?
    requires Leads(w, s, steps, t) && Told(t, b, i, outcome)
    ensures var ctx, o := s.batches[b].ctx, s.batches[b].input.objects[i];
            outcome == ProcessObject(ctx, o, s.batches[b].phases[i].head, Presign(w, ctx, o, signs))
    decreases |steps|
  {
    assert steps != [];
    var step, m := steps[0], Apply(w, s, steps[0]);
    StepKeepsInv(w, s, step);
    if step.Finish? && step.batch == b && step.index == i {
      signs := step.signs;
      RunKeepsInv(w, m, steps[1..], t);
    } else {
      OthersKeepPhase(w, s, step, b, i);
      signs := AnsweredBySigning(w, m, b, i, steps[1..], t, outcome);
    }
  }

  /** A queued object, looked up now and answered in some later state. */
  ghost predicate AnsweredLater(w: World, s: State, b: nat, i: nat, outage: Option<ProviderError>, steps: seq<Step>,
                                t: State, outcome: Outcome)
  {
    && Reachable(w, s) && HasPhase(s, b, i) && s.batches[b].phases[i].Queued?
    && Leads(w, Apply(w, s, LookUp(b, i, outage)), steps, t) && Told(t, b, i, outcome)
  }

  /** The object is valid, its key exists and what is stored under it stays. */
  lemma AnswerOfLookUp(w: World, s: State, b: nat, i: nat, outage: Option<ProviderError>, steps: seq<Step>, t: State,
                       outcome: Outcome) returns (signs: bool)
    requires AnsweredLater(w, s, b, i, outage, steps, t, outcome)
    ensures var ctx, o := s.batches[b].ctx, s.batches[b].input.objects[i];
            && ctx.operation in {"upload", "download"} && ValidObject(w.maxObjectSize, o)
            && outcome == ProcessObject(ctx, o, Head(s.bucket, ctx.repositoryID, o.oid, outage),
                                        Presign(w, ctx, o, signs))
    ensures forall key <- s.bucket :: key in t.bucket && t.bucket[key] == s.bucket[key]
  {
    ReachableInv(w, s);
    assert BatchOk(w, s.batches[b]);
    var looked := Apply(w, s, LookUp(b, i, outage));
    StepKeepsInv(w, s, LookUp(b, i, outage));
    RunKeepsInv(w, looked, steps, t);
    signs := AnsweredBySigning(w, looked, b, i, steps, t, outcome);
  }

  /** What an upload offers: the object's own key, exactly the headers that bind size, hash and
      creation, and the Verify request to make afterwards. */
  function UploadActions(w: World, ctx: Context, o: RequestObject, key: string): map<string, ActionOut> {
    map["upload" := ActionOut(Presigned("PUT", key),
                              map["Content-Length" := FormatInt(o.size), "If-None-Match" := "*",
                                  "X-Amz-Content-Sha256" := o.oid],
                              w.presignTtl / SECOND, false),
        "verify" := ActionOut(VerifyUrl(ctx.verifyUrl), map["Authorization" := ctx.credentials], 0, true)]
  }

  /** An upload Batch tells the truth about the bucket its Head call saw, however many steps of other
      clients lie between that call, the presigning and the answer. */
  lemma UploadBatchTellsTheTruth(w: World, s: State, b: nat, i: nat, outage: Option<ProviderError>, steps: seq<Step>,
                                 t: State, out: Outcome) returns (signs: bool)
    requires AnsweredLater(w, s, b, i, outage, steps, t, out) && s.batches[b].ctx.operation == "upload"
    ensures var ctx, o := s.batches[b].ctx, s.batches[b].input.objects[i];
            && Key(ctx.repositoryID, o.oid).Success?
            && var key := Key(ctx.repositoryID, o.oid).value;
            && (out.result == "exists" <==> outage == None && key in s.bucket && |s.bucket[key]| == o.size)
            && (out.result == "mismatch" <==> outage == None && key in s.bucket && |s.bucket[key]| != o.size)
            && (out.result == "upload" <==> SeemsAbsent(s.bucket, key, outage) && signs)
            && (out.result == "unavailable" <==>
                  if SeemsAbsent(s.bucket, key, outage) then !signs else outage.Some?)
            && (out.result == "upload" ==> out.response.actions == UploadActions(w, ctx, o, key))
  {
    signs := AnswerOfLookUp(w, s, b, i, outage, steps, t, out);
    var ctx, o := s.batches[b].ctx, s.batches[b].input.objects[i];
    HeadTellsTheTruth(s.bucket, ctx.repositoryID, o.oid, outage, o.size);
    UploadHeaders(w.host, o.oid, o.size);
    hide AnsweredLater, Head, SeemsAbsent, RequiredHeaders;
  }

  /** And so does a download Batch. */
  lemma DownloadBatchTellsTheTruth(w: World, s: State, b: nat, i: nat, outage: Option<ProviderError>,
                                   steps: seq<Step>, t: State, out: Outcome) returns (signs: bool)
    requires AnsweredLater(w, s, b, i, outage, steps, t, out) && s.batches[b].ctx.operation == "download"
    ensures var ctx, o := s.batches[b].ctx, s.batches[b].input.objects[i];
            && Key(ctx.repositoryID, o.oid).Success?
            && var key := Key(ctx.repositoryID, o.oid).value;
            && (out.result == "download" <==>
                  outage == None && key in s.bucket && |s.bucket[key]| == o.size && signs)
            && (out.result == "mismatch" <==> outage == None && key in s.bucket && |s.bucket[key]| != o.size)
            && (out.result == "not_found" <==> SeemsAbsent(s.bucket, key, outage))
            && (out.result == "unavailable" <==>
                  if outage.Some? then !SeemsAbsent(s.bucket, key, outage)
                  else key in s.bucket && |s.bucket[key]| == o.size && !signs)
            && (out.result == "download" ==>
                  out.response.actions ==
                    map["download" := ActionOut(Presigned("GET", key), map[], w.presignTtl / SECOND, true)])
  {
    signs := AnswerOfLookUp(w, s, b, i, outage, steps, t, out);
    var ctx, o := s.batches[b].ctx, s.batches[b].input.objects[i];
    HeadTellsTheTruth(s.bucket, ctx.repositoryID, o.oid, outage, o.size);
    assert ToLower("Host") == "host";
    assert RequiredHeaders(map["Host" := [w.host]]) == map[];
    hide AnsweredLater, Head, SeemsAbsent, RequiredHeaders;
  }

  /** What a client was told stays true in every later state, even where HEAD wrongly reports absence
      to others: "exists" and "download" mean that the key holds the announced size, "mismatch" that it
      holds another one, and an offered upload is one that was issued for this very object. */
  lemma ToldForGood(w: World, s: State, b: nat, i: nat, out: Outcome, steps: seq<Step>, t: State)
    requires Reachable(w, s) && Told(s, b, i, out) && Leads(w, s, steps, t)
    ensures HasPhase(t, b, i) && Told(t, b, i, out)
    ensures var ctx, o := t.batches[b].ctx, t.batches[b].input.objects[i];
            && Key(ctx.repositoryID, o.oid).Success?
            && var key := Key(ctx.repositoryID, o.oid).value;
            && (out.result in {"exists", "download"} ==> key in t.bucket && |t.bucket[key]| == o.size)
            && (out.result == "mismatch" ==> key in t.bucket && |t.bucket[key]| != o.size)
    ensures out.result == "upload" ==> IsIssued(t, b, i, out)
  {
    ReachableInv(w, s);
    RunKeepsInv(w, s, steps, t);
    assert PhaseOk(w, t, b, i) && BatchOk(w, t.batches[b]);
    var ctx, o := t.batches[b].ctx, t.batches[b].input.objects[i];
    KeyAccepts(ctx.repositoryID, o.oid);
    var head, signs :| AnsweredFrom(w, t, b, i, out, head, signs);
    AnswerStands(w, t, b, i, out, head, signs);
    hide IsIssued, Leads, Inv, Later, AnsweredFrom, Key, PhaseOk, BatchOk;
  }

  lemma AnswerStands(w: World, s: State, b: nat, i: nat, out: Outcome, head: Result<nat, StoreError>, signs: bool)
    requires HasPhase(s, b, i) && AnsweredFrom(w, s, b, i, out, head, signs)
    requires s.batches[b].ctx.operation in {"upload", "download"}
    requires Key(s.batches[b].ctx.repositoryID, s.batches[b].input.objects[i].oid).Success?
    ensures var ctx, o := s.batches[b].ctx, s.batches[b].input.objects[i];
            var key := Key(ctx.repositoryID, o.oid).value;
            && (out.result in {"exists", "download"} ==> key in s.bucket && |s.bucket[key]| == o.size)
            && (out.result == "mismatch" ==> key in s.bucket && |s.bucket[key]| != o.size)
  {
    hide Presign, Key;
  }

  // ----- convergence

  /** Once Verify has succeeded for an object of a repository, it succeeds again in every later state,
      for every writer of that repository, as long as the store is available. */
  lemma VerifyStays(w: World, s: State, steps: seq<Step>, t: State, o: RequestObject, a: Authorization,
                    outage: Option<ProviderError>, writer: Authorization)
    requires Reachable(w, s) && Leads(w, s, steps, t) && VerifyIn(w, s, o, a, outage) == Verified
    requires writer.permission == Write && writer.repositoryID == a.repositoryID
    ensures VerifyIn(w, t, o, writer, None) == Verified
    ensures Key(a.repositoryID, o.oid).Success?
    ensures Key(a.repositoryID, o.oid).value in t.bucket && |t.bucket[Key(a.repositoryID, o.oid).value]| == o.size
  {
    VerifyTellsTheTruth(w, s, o, a, outage);
    VerifyTellsTheTruth(w, t, o, writer, None);
    ObjectsNeverChange(w, s, steps, t, Key(a.repositoryID, o.oid).value);
  }

  /** And every Batch object for it that is looked up from then on, with the store available, ends so:
      in an upload with neither actions nor error, in a download with a presigned download of the
      object's own key, or with unavailability exactly when the presigner fails. */
  lemma Convergence(w: World, s: State, steps: seq<Step>, t: State, o: RequestObject, a: Authorization,
                    outage: Option<ProviderError>, b: nat, i: nat, more: seq<Step>, u: State, out: Outcome)
      returns (signs: bool)
    requires Reachable(w, s) && Leads(w, s, steps, t) && VerifyIn(w, s, o, a, outage) == Verified
    requires AnsweredLater(w, t, b, i, None, more, u, out)
    requires t.batches[b].input.objects[i] == o && t.batches[b].ctx.repositoryID == a.repositoryID
    ensures t.batches[b].ctx.operation in {"upload", "download"}
    ensures t.batches[b].ctx.operation == "upload" ==>
              out.result == "exists" && out.response.actions == map[] && out.response.error == None
    ensures t.batches[b].ctx.operation == "download" && signs ==>
              && Key(a.repositoryID, o.oid).Success? && out.response.error == None
              && out.response.actions.Keys == {"download"}
              && out.response.actions["download"].href == Presigned("GET", Key(a.repositoryID, o.oid).value)
    ensures t.batches[b].ctx.operation == "download" && !signs ==> out.result == "unavailable"
  {
    VerifyStays(w, s, steps, t, o, a, outage, Authorization(a.repositoryID, Write, ""));
    signs := AnswerOfLookUp(w, t, b, i, None, more, u, out);
    HeadTellsTheTruth(t.bucket, a.repositoryID, o.oid, None, o.size);
    hide AnsweredLater, Head, Leads, VerifyIn;
  }

  // ----- uploading

  /** Whoever holds a presigned upload and sends the body it was issued for, once or again, then
      finds Verify succeeding unless a body of another size already sat under the key. */
  lemma UploadThenVerify(w: World, s: State, k: nat, body: Body, writer: Authorization)
    requires Reachable(w, s) && k < |s.issued| && HasPhase(s, s.issued[k].batch, s.issued[k].index)
    requires |body| == ObjectOf(s, k).size && w.hash(body) == ObjectOf(s, k).oid
    requires writer.permission == Write && writer.repositoryID == s.batches[s.issued[k].batch].ctx.repositoryID
    ensures var key := s.issued[k].put.key;
            VerifyIn(w, Apply(w, s, Upload(k, body)), ObjectOf(s, k), writer, None) == Verified
            <==> (key in s.bucket ==> |s.bucket[key]| == ObjectOf(s, k).size)
  {
    ReachableInv(w, s);
    var it, o := s.issued[k], ObjectOf(s, k);
    var batch := s.batches[it.batch];
    assert IssuedOk(w, s, k) && BatchOk(w, batch);
    assert ValidObject(w.maxObjectSize, batch.input.objects[it.index]);
    UploadBinds(w.host, w.presignTtl, batch.ctx.repositoryID, o.oid, o.size, it.put, s.bucket, body, w.hash);
    VerifyTellsTheTruth(w, Apply(w, s, Upload(k, body)), o, writer, None);
  }

  /** No body that was ever uploaded clashes with this one: same hash, other content. */
  ghost predicate NoClash(w: World, s: State, body: Body) {
    forall c <- s.created :: w.hash(c.body) == w.hash(body) ==> c.body == body
  }

  /** Unless a clash was uploaded before, the obstacle cannot arise: after the upload the key holds exactly the
      sender's body, so a client that lost the reply of its PUT converges by trying again. */
  lemma UploadConverges(w: World, s: State, k: nat, body: Body, writer: Authorization)
    requires NoClash(w, s, body)
    requires Reachable(w, s) && k < |s.issued| && HasPhase(s, s.issued[k].batch, s.issued[k].index)
    requires |body| == ObjectOf(s, k).size && w.hash(body) == ObjectOf(s, k).oid
    requires writer.permission == Write && writer.repositoryID == s.batches[s.issued[k].batch].ctx.repositoryID
    ensures var t := Apply(w, s, Upload(k, body));
            && s.issued[k].put.key in t.bucket && t.bucket[s.issued[k].put.key] == body
            && VerifyIn(w, t, ObjectOf(s, k), writer, None) == Verified
  {
    ReachableInv(w, s);
    var it, o := s.issued[k], ObjectOf(s, k);
    var repositoryID := s.batches[it.batch].ctx.repositoryID;
    assert IssuedOk(w, s, k);
    UploadBinds(w.host, w.presignTtl, repositoryID, o.oid, o.size, it.put, s.bucket, body, w.hash);
    UploadThenVerify(w, s, k, body, writer);
    if it.put.key in s.bucket {
      StoredBodyIs(w, s, it.put.key, repositoryID, o.oid, body);
    }
  }

  /** End-to-end integrity: unless bodies uploaded in the two runs clash, equal OIDs mean equal stored
      bodies, across all repositories and between any two reachable states. */
  lemma SameOidSameBody(w: World, s: State, t: State, key: string, other: string)
    requires Reachable(w, s) && Reachable(w, t) && forall c <- s.created :: NoClash(w, t, c.body)
    requires key in s.bucket && other in t.bucket
    requires ParseKey(key).Some? && ParseKey(other).Some? && ParseKey(key).value.1 == ParseKey(other).value.1
    ensures s.bucket[key] == t.bucket[other]
  {
    StoredObjectsAreWellPlaced(w, s, key);
    StoredObjectsAreWellPlaced(w, t, other);
  }

  // ----- uploading is always possible

  lemma {:induction false} LeadsConcat(w: World, s: State, first: seq<Step>, m: State, second: seq<Step>, t: State)
    requires Leads(w, s, first, m) && Leads(w, m, second, t)
    ensures Leads(w, s, first + second, t)
    decreases |first|
  {
    if first == [] {
      assert first + second == second;
    } else {
      assert (first + second)[0] == first[0] && (first + second)[1..] == first[1..] + second;
      LeadsConcat(w, Apply(w, s, first[0]), first[1..], m, second, t);
    }
  }

  lemma ReachableExtends(w: World, s: State, steps: seq<Step>, t: State)
    requires Reachable(w, s) && Leads(w, s, steps, t)
    ensures Reachable(w, t)
  {
    var before :| Leads(w, EMPTY, before, s);
    LeadsConcat(w, EMPTY, before, s, steps, t);
  }

  lemma OneStep(w: World, s: State, step: Step)
    requires Enabled(s, step)
    ensures Leads(w, s, [step], Apply(w, s, step))
  {
    assert [step][1..] == [];
  }

  /** The Batch a client sends to upload one object. */
  function UploadRequest(o: RequestObject): BatchRequest {
    BatchRequest("upload", ["basic"], "sha256", [o])
  }

  /** The run of one client: its Batch first, then steps of its own. */
  ghost predicate AsksFor(steps: seq<Step>, o: RequestObject, writer: Authorization) {
    && steps != [] && steps[0] == Admit(UploadRequest(o), true, Success(writer), "", "")
    && forall i :: 1 <= i < |steps| ==> !steps[i].Admit?
  }

  /** The first three steps: the Batch is admitted, its object is looked up, and the answer given. */
  lemma AskToUpload(w: World, s: State, o: RequestObject, writer: Authorization) returns (steps: seq<Step>, t: State)
    requires ValidObject(w.maxObjectSize, o) && writer.permission == Write
    ensures AsksFor(steps, o, writer)
    ensures Leads(w, s, steps, t) && t.bucket == s.bucket && t.created == s.created && |t.batches| == |s.batches| + 1
    ensures HasPhase(t, |s.batches|, 0) && t.batches[|s.batches|].input == UploadRequest(o)
    ensures t.batches[|s.batches|].ctx.repositoryID == writer.repositoryID
    ensures var key := Key(writer.repositoryID, o.oid);
            key.Success? && (key.value !in s.bucket ==>
              && |t.issued| == |s.issued| + 1
              && t.issued[|s.issued|].batch == |s.batches| && t.issued[|s.issued|].index == 0)
  {
    KeyAccepts(writer.repositoryID, o.oid);
    var input, b := UploadRequest(o), |s.batches|;
    CheckBatchMeaning(w.maxObjectSize, input, writer.repositoryID);
    var admit := Admit(input, true, Success(writer), "", "");
    assert AdmitBatch(w.maxObjectSize, input, true, Success(writer)) == Admitted(writer.repositoryID);
    var s1 := Apply(w, s, admit);
    var s2 := Apply(w, s1, LookUp(b, 0, None));
    t := Apply(w, s2, Finish(b, 0, true));
    hide Leads, AdmitBatch, CheckBatch;
    OneStep(w, s, admit);
    OneStep(w, s1, LookUp(b, 0, None));
    OneStep(w, s2, Finish(b, 0, true));
    LeadsConcat(w, s, [admit], s1, [LookUp(b, 0, None)], s2);
    steps := [admit] + [LookUp(b, 0, None)];
    LeadsConcat(w, s, steps, s2, [Finish(b, 0, true)], t);
    steps := steps + [Finish(b, 0, true)];
  }

  /** From every reachable state, a writer who holds a body of the announced size and hash can bring
      its repository to where Verify succeeds, whatever other clients have done before. */
  lemma UploadIsAlwaysPossible(w: World, s: State, o: RequestObject, body: Body, writer: Authorization)
      returns (steps: seq<Step>, t: State)
    requires NoClash(w, s, body) && Reachable(w, s)
    requires ValidObject(w.maxObjectSize, o) && writer.permission == Write
    requires |body| == o.size && w.hash(body) == o.oid
    ensures Leads(w, s, steps, t) && VerifyIn(w, t, o, writer, None) == Verified
    ensures AsksFor(steps, o, writer)
  {
    steps, t := AskToUpload(w, s, o, writer);
    ReachableExtends(w, s, steps, t);
    var key := Key(writer.repositoryID, o.oid).value;
    if key in s.bucket {
      StoredBodyIs(w, t, key, writer.repositoryID, o.oid, body);
      VerifyTellsTheTruth(w, t, o, writer, None);
    } else {
      var k := |s.issued|;
      assert ObjectOf(t, k) == o;
      UploadConverges(w, t, k, body, writer);
      OneStep(w, t, Upload(k, body));
      LeadsConcat(w, s, steps, t, [Upload(k, body)], Apply(w, t, Upload(k, body)));
      steps, t := steps + [Upload(k, body)], Apply(w, t, Upload(k, body));
    }
  }

  /** Without a clash there is only one body a key can hold. */
  lemma StoredBodyIs(w: World, s: State, key: string, repositoryID: int64, oid: string, body: Body)
    requires NoClash(w, s, body) && Reachable(w, s) && key in s.bucket
    requires Key(repositoryID, oid) == Success(key) && w.hash(body) == oid
    ensures s.bucket[key] == body
  {
    StoredObjectsAreWellPlaced(w, s, key);
    KeyInvertible(key, repositoryID, oid);
  }
}
