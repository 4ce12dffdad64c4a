/** What CreateVolume and DeleteVolume do to buckets over whole runs. */
module Lifecycle {
  import opened ObjectStorage
  import opened Controller
  import opened Wrappers

  // ---------------------------------------------------------------- one CreateVolume

  /** The call takes a bucket that was there before for its own. */
  predicate Claims(c: Cloud, req: CreateRequest, env: CreateEnv) {
    Prepare(req).Ok? && ClaimsFor(c, Prepare(req).value, env)
  }

  predicate ClaimsFor(c: Cloud, plan: Plan, env: CreateEnv) {
    var b := OwnBucket(plan, env);
    b != "" && b in c && Obtain(c, plan, env).1 && Obtain(c, plan, env).2
  }

  /** Exactly then: the bucket can be reached, but the first check failed to see it (or there is no
      first check, for a temporary name that is not fresh), the create call answers that the name
      is taken in a way that is tolerated, and the second check sees it. */
  lemma ClaimsExactly(c: Cloud, req: CreateRequest, env: CreateEnv)
    requires Prepare(req).Ok?
    ensures var plan := Prepare(req).value;
            var b := OwnBucket(plan, env);
            Claims(c, req, env) <==>
              && b != "" && Accessible(c, env.account, b)
              && (plan.bucketName == "" || env.head != Answered)
              && env.create == Answered && (c[b].owner == env.account || env.smithy)
              && env.recheck == Answered
  {
  }

  /** A claimed bucket is put at risk in one of two ways: it is recorded as the driver's to delete,
      or the call fails after handing it to a compensating delete. */
  lemma ClaimsEndanger(c: Cloud, req: CreateRequest, env: CreateEnv)
    requires Claims(c, req, env)
    ensures var (c', r) := CreateVolumeResult(c, req, env);
            var b := OwnBucket(Prepare(req).value, env);
            match r
            case Created(_, context) => BucketToDelete(context) == b
            case Failed(_, stage) =>
              && stage.NotSettled? && stage.owned
              && (exists c1: Cloud :: OnlySettings(c, c1, b) && (c', stage.undone) == Delete(c1, env.account, b, env.rollback))
  {
    var plan := Prepare(req).value;
    var b := OwnBucket(plan, env);
    var c1 := Obtain(c, plan, env).0;
    assert c1 == c;
    SettleExactly(c1, b, plan, true, env);
  }

  /** Settling changes the quota and versioning of its bucket and no more; a failure hands what it
      has to the compensating delete. */
  lemma SettleExactly(c: Cloud, b: string, plan: Plan, owned: bool, env: CreateEnv)
    requires b in c
    ensures var (c', stage) := Settle(c, b, plan, owned, env);
            exists c1: Cloud :: OnlySettings(c, c1, b) &&
              if stage.None? then c' == c1
              else stage.value.NotSettled? && stage.value.owned == owned && (c', stage.value.undone) == Undo(c1, b, owned, env)
  {
    var (c1, quotaOk) := if plan.quota.Some? then PutQuota(c, b, plan.quota.value, env.quota) else (c, true);
    assert OnlySettings(c, c1, b);
    if quotaOk {
      var (c2, versioned) :=
        if plan.versioning.Some? then PutVersioning(c1, env.account, b, plan.versioning.value, env.versioning) else (c1, true);
      assert OnlySettings(c, c2, b);
    }
  }

  lemma SettleAsPlanned(c: Cloud, b: string, plan: Plan, owned: bool, env: CreateEnv)
    requires b in c && Settle(c, b, plan, owned, env).1.None?
    ensures var c' := Settle(c, b, plan, owned, env).0;
            && b in c'
            && c'[b].quota == (if plan.quota.Some? then plan.quota else c[b].quota)
            && c'[b].versioning == (if plan.versioning.Some? then plan.versioning else c[b].versioning)
  {
  }

  /** A volume that is created has the quota and the versioning that were asked for; what was not
      asked for stays as it was, or is unset on a new bucket. */
  lemma SuccessSettles(c: Cloud, req: CreateRequest, env: CreateEnv)
    requires CreateVolumeResult(c, req, env).1.Created?
    ensures Prepare(req).Ok?
    ensures var (c', r) := CreateVolumeResult(c, req, env);
            var b, plan := r.context.bucketName, Prepare(req).value;
            && b in c'
            && c'[b].quota == (if plan.quota.Some? then plan.quota else if b in c then c[b].quota else None)
            && c'[b].versioning == (if plan.versioning.Some? then plan.versioning else if b in c then c[b].versioning else None)
  {
    var plan := Prepare(req).value;
    var b := OwnBucket(plan, env);
    var (c1, ok, owned) := Obtain(c, plan, env);
    if b !in c {
      ObtainedFresh(c, plan, env);
    }
    SettleAsPlanned(c1, b, plan, owned, env);
  }

  /** c' is c but for the quota and versioning of b. */
  predicate OnlySettings(c: Cloud, c': Cloud, b: string) {
    && b in c && b in c'
    && c' == c[b := c'[b]]
    && c'[b].objects == c[b].objects && c'[b].owner == c[b].owner && c'[b].guests == c[b].guests
  }

  /** Deleting a bucket that this call made, when the delete reports success, leaves the store as it
      was before. */
  lemma UndoRestores(c: Cloud, c1: Cloud, b: string, env: CreateEnv)
    requires b !in c && b in c1 && c1 == c[b := c1[b]]
    ensures Undo(c1, b, true, env).1 ==> Undo(c1, b, true, env).0 == c
    ensures Undo(c1, b, true, env).0 - {b} == c
  {
    assert c1 - {b} == c;
  }

  lemma ObtainedFresh(c: Cloud, plan: Plan, env: CreateEnv)
    requires OwnBucket(plan, env) !in c
    ensures var b := OwnBucket(plan, env);
            var (c1, ok, owned) := Obtain(c, plan, env);
            && c1 - {b} == c
            && (ok ==> owned && b in c1 && c1 == c[b := NewBucket(env.account)])
  {
  }

  lemma PlanFailureIsContained(c: Cloud, volumeID: string, plan: Plan, env: CreateEnv)
    requires !ClaimsFor(c, plan, env) && Provisioned(c, volumeID, plan, env).1.Failed?
    ensures var (c', r) := Provisioned(c, volumeID, plan, env);
            && !r.stage.Refused?
            && c' - {OwnBucket(plan, env)} == c - {OwnBucket(plan, env)}
            && (r.stage.NotSettled? && r.stage.owned && r.stage.undone ==> c' == c)
            && (r.stage.NotSettled? && !r.stage.owned ==> OnlySettings(c, c', OwnBucket(plan, env)))
            && (forall b | b in c :: b in c' && c'[b].objects == c[b].objects)
  {
    var b := OwnBucket(plan, env);
    var (c1, ok, owned) := Obtain(c, plan, env);
    if b != "" && ok {
      SettleExactly(c1, b, plan, owned, env);
      if owned {
        ObtainedFresh(c, plan, env);
        var c2: Cloud :| OnlySettings(c1, c2, b) &&
          (Settle(c1, b, plan, owned, env).0, Settle(c1, b, plan, owned, env).1.value.undone) == Undo(c2, b, owned, env);
        assert c2 == c[b := c2[b]];
        UndoRestores(c, c2, b, env);
        KeepsOthers(c, Provisioned(c, volumeID, plan, env).0, b);
      }
    }
  }

  lemma KeepsOthers(c: Cloud, c': Cloud, b: string)
    requires b !in c && c' - {b} == c
    ensures forall k | k in c :: k in c' && c'[k] == c[k]
  {
    assert forall k | k in c :: k in c' - {b} && (c' - {b})[k] == c[k];
  }

  /** Rollback exactness. A call that claims nothing and fails leaves every other bucket alone. If
      it had made its bucket and the compensating delete succeeds, the store is exactly as before;
      if the bucket was the user's, at most its quota and versioning differ. */
  lemma FailureIsContained(c: Cloud, req: CreateRequest, env: CreateEnv)
    requires !Claims(c, req, env) && CreateVolumeResult(c, req, env).1.Failed?
    ensures var (c', r) := CreateVolumeResult(c, req, env);
            && (r.stage.Refused? ==> c' == c)
            && (Prepare(req).Ok? ==> c' - {OwnBucket(Prepare(req).value, env)} == c - {OwnBucket(Prepare(req).value, env)})
            && (r.stage.NotSettled? && r.stage.owned && r.stage.undone ==> c' == c)
            && (r.stage.NotSettled? && !r.stage.owned ==> OnlySettings(c, c', OwnBucket(Prepare(req).value, env)))
            && (forall b | b in c :: b in c' && c'[b].objects == c[b].objects)
  {
    if Prepare(req).Ok? {
      PlanFailureIsContained(c, req.volumeID, Prepare(req).value, env);
    }
  }

  /** A call that claims nothing and succeeds: it made its bucket, empty and recorded as its own, or
      it found the user's, left its contents alone and recorded it as the user's. */
  lemma SuccessIsRecorded(c: Cloud, req: CreateRequest, env: CreateEnv)
    requires !Claims(c, req, env) && CreateVolumeResult(c, req, env).1.Created?
    ensures Prepare(req).Ok?
    ensures var (c', r) := CreateVolumeResult(c, req, env);
            var b := r.context.bucketName;
            && b != "" && b in c' && b == OwnBucket(Prepare(req).value, env)
            && (BucketToDelete(r.context) == b <==> b !in c)
            && (BucketToDelete(r.context) == "" <==> b in c)
            && (b in c ==> OnlySettings(c, c', b))
            && (b !in c ==> c' - {b} == c && c'[b].objects == map[] && c'[b].owner == env.account)
  {
    var plan := Prepare(req).value;
    var b := OwnBucket(plan, env);
    var (c1, ok, owned) := Obtain(c, plan, env);
    SettleExactly(c1, b, plan, owned, env);
    if b !in c {
      ObtainedFresh(c, plan, env);
    }
  }

  /** What a create that succeeds records: the bucket it worked on, which its account can reach, and
      whether that bucket was seen by the first check. */
  lemma CreatedIsReachable(c: Cloud, req: CreateRequest, env: CreateEnv)
    requires CreateVolumeResult(c, req, env).1.Created?
    ensures Prepare(req).Ok?
    ensures var (c', r) := CreateVolumeResult(c, req, env);
            var plan := Prepare(req).value;
            var b := OwnBucket(plan, env);
            var found := plan.bucketName != "" && Heads(c, env.account, b, env.head);
            && b != "" && Accessible(c', env.account, b)
            && r == Created(req.volumeID, plan.params.(userProvidedBucket := if found then "true" else "false", bucketName := b))
  {
    var plan := Prepare(req).value;
    var b := OwnBucket(plan, env);
    var (c1, ok, owned) := Obtain(c, plan, env);
    SettleExactly(c1, b, plan, owned, env);
  }

  /** The bucket can be used: the first check sees it, or the create call answers, with a tolerated
      clash if the name is taken, and the second check sees it. */
  predicate Obtains(c: Cloud, plan: Plan, env: CreateEnv) {
    var b := OwnBucket(plan, env);
    || (plan.bucketName != "" && env.head == Answered && Accessible(c, env.account, b))
    || (env.create == Answered && env.recheck == Answered
        && (b in c ==> Accessible(c, env.account, b) && (c[b].owner == env.account || env.smithy)))
  }

  predicate Settles(plan: Plan, env: CreateEnv) {
    (plan.quota.Some? ==> env.quota == Answered) && (plan.versioning.Some? ==> env.versioning == Answered)
  }

  lemma ObtainExactly(c: Cloud, plan: Plan, env: CreateEnv)
    ensures Obtain(c, plan, env).1 <==> Obtains(c, plan, env)
    ensures Obtain(c, plan, env).1 ==> Accessible(Obtain(c, plan, env).0, env.account, OwnBucket(plan, env))
  {
  }

  lemma SettleSucceeds(c: Cloud, b: string, plan: Plan, owned: bool, env: CreateEnv)
    requires Accessible(c, env.account, b)
    ensures Settle(c, b, plan, owned, env).1.None? <==> Settles(plan, env)
    ensures !Settles(plan, env) ==> Settle(c, b, plan, owned, env).1.value.NotSettled?
  {
  }

  /** Every answer of CreateVolume and exactly when it is given. */
  lemma CreateAnswersExactly(c: Cloud, req: CreateRequest, env: CreateEnv)
    ensures var r := CreateVolumeResult(c, req, env).1;
            match Prepare(req)
            case Err(_) => r == Failed(InvalidArgument, Refused)
            case Ok(plan) =>
              var obtained := OwnBucket(plan, env) != "" && Obtains(c, plan, env);
              && (r.Created? <==> obtained && Settles(plan, env))
              && (r == Failed(PermissionDenied, NotCreated) <==> !obtained)
              && (obtained && !Settles(plan, env) ==> r.Failed? && r.code == Internal && r.stage.NotSettled?)
  {
    AcceptsExactly(req);
    if Prepare(req).Ok? {
      var plan := Prepare(req).value;
      ObtainExactly(c, plan, env);
      if Obtains(c, plan, env) {
        SettleSucceeds(Obtain(c, plan, env).0, OwnBucket(plan, env), plan, Obtain(c, plan, env).2, env);
      }
    }
  }

  /** A create that does not get its new bucket leaves it behind unless the create call was rejected:
      a lost answer, or a second check that fails, is compensated by nothing. */
  lemma NotCreatedLeaks(c: Cloud, req: CreateRequest, env: CreateEnv)
    requires Prepare(req).Ok? && OwnBucket(Prepare(req).value, env) != "" && OwnBucket(Prepare(req).value, env) !in c
    requires CreateVolumeResult(c, req, env).1 == Failed(PermissionDenied, NotCreated)
    ensures var b, c' := OwnBucket(Prepare(req).value, env), CreateVolumeResult(c, req, env).0;
            if env.create == Rejected then c' == c else b in c' && c' - {b} == c
  {
    var plan := Prepare(req).value;
    CreateAnswersExactly(c, req, env);
    ObtainExactly(c, plan, env);
    CreateAnswers(c, env.account, OwnBucket(plan, env), env.create, env.smithy);
  }

  /** A failed quota stops the call before versioning is touched. */
  lemma QuotaComesFirst(c: Cloud, req: CreateRequest, env: CreateEnv)
    requires Prepare(req).Ok? && Prepare(req).value.quota.Some? && env.quota != Answered
    requires var b := OwnBucket(Prepare(req).value, env); b in c && !Claims(c, req, env)
    ensures var b, c' := OwnBucket(Prepare(req).value, env), CreateVolumeResult(c, req, env).0;
            b in c' && c'[b].versioning == c[b].versioning
  {
    ObtainExactly(c, Prepare(req).value, env);
  }

  /** The compensation works: when quota or versioning fails on a bucket the call has made, and the
      delete of the still empty bucket is answered, the store is what it was. */
  lemma RollbackRestores(c: Cloud, req: CreateRequest, env: CreateEnv)
    requires Prepare(req).Ok? && OwnBucket(Prepare(req).value, env) != "" && OwnBucket(Prepare(req).value, env) !in c
    requires Obtains(c, Prepare(req).value, env) && !Settles(Prepare(req).value, env)
    requires Calm(env.rollback) && env.rollback.page == []
    ensures CreateVolumeResult(c, req, env) == (c, Failed(Internal, NotSettled(true, true)))
  {
    var plan := Prepare(req).value;
    var b := OwnBucket(plan, env);
    CreateAnswersExactly(c, req, env);
    ObtainedFresh(c, plan, env);
    ObtainExactly(c, plan, env);
    var c1 := Obtain(c, plan, env).0;
    SettleExactly(c1, b, plan, true, env);
    var c2: Cloud :| OnlySettings(c1, c2, b) &&
      (Settle(c1, b, plan, true, env).0, Settle(c1, b, plan, true, env).1.value.undone) == Undo(c2, b, true, env);
    EmptyDelete(c2, env.account, b, env.rollback);
    assert c2 - {b} == c1 - {b} == c;
  }

  lemma EmptyDelete(c: Cloud, who: Account, b: string, env: DeleteEnv)
    requires Accessible(c, who, b) && c[b].objects == map[] && Calm(env) && env.page == []
    ensures Delete(c, who, b, env) == (c - {b}, true)
  {
    CalmDelete(c, who, b, env, 0);
  }

  /** A create whose calls are all answered. */
  predicate CalmCreate(env: CreateEnv) {
    env.head == env.create == env.recheck == env.quota == env.versioning == Answered
  }

  /** Settling succeeds when its two calls are answered and the bucket can be reached. */
  lemma CalmSettle(c: Cloud, b: string, plan: Plan, owned: bool, env: CreateEnv)
    requires env.quota == env.versioning == Answered && Accessible(c, env.account, b)
    ensures Settle(c, b, plan, owned, env).1.None?
  {
  }

  lemma CalmObtain(c: Cloud, plan: Plan, env: CreateEnv)
    requires CalmCreate(env) && OwnBucket(plan, env) != ""
    requires OwnBucket(plan, env) in c ==> Accessible(c, env.account, OwnBucket(plan, env))
    requires OwnBucket(plan, env) in c && plan.bucketName == "" ==> c[OwnBucket(plan, env)].owner == env.account || env.smithy
    ensures Obtain(c, plan, env).1 && Accessible(Obtain(c, plan, env).0, env.account, OwnBucket(plan, env))
  {
  }

  /** A well-formed request whose calls are all answered succeeds when its bucket is absent or can be
      reached. */
  lemma CalmCreateSucceeds(c: Cloud, req: CreateRequest, env: CreateEnv)
    requires Prepare(req).Ok? && CalmCreate(env)
    requires var b := OwnBucket(Prepare(req).value, env);
             b != "" && (b in c ==> Prepare(req).value.bucketName != "" && Accessible(c, env.account, b))
    ensures CreateVolumeResult(c, req, env).1.Created?
  {
    var plan := Prepare(req).value;
    CalmObtain(c, plan, env);
    var (c1, ok, owned) := Obtain(c, plan, env);
    CalmSettle(c1, OwnBucket(plan, env), plan, owned, env);
  }

  // ---------------------------------------------------------------- whole runs

  /** Owning a bucket is not needed to use it: a calm create by any account it is shared with succeeds
      and records the bucket as the user's; by any other account it fails,
      whether or not the clash is tolerated, and leaves the store as it was. */
  lemma SharedWith(c: Cloud, req: CreateRequest, env: CreateEnv)
    requires Prepare(req).Ok? && CalmCreate(env)
    requires Prepare(req).value.bucketName != "" && Prepare(req).value.bucketName in c
    ensures var bucket, (c', r) := c[Prepare(req).value.bucketName], CreateVolumeResult(c, req, env);
            if env.account == bucket.owner || env.account in bucket.guests
            then r.Created? && r.context.userProvidedBucket == "true"
            else r == Failed(PermissionDenied, NotCreated) && c' == c
  {
    CreateAnswersExactly(c, req, env);
    if Accessible(c, env.account, Prepare(req).value.bucketName) {
      CreatedIsReachable(c, req, env);
    } else {
      CreateAnswers(c, env.account, Prepare(req).value.bucketName, env.create, env.smithy);
    }
  }

  /** The store and the PVs that Kubernetes keeps. */
  datatype World = World(cloud: Cloud, pvs: PVs)

  /** One step of a run. A volume's context is recorded only if the answer arrives; users write
      objects through their mounts; PVs go when Kubernetes pleases. */
  datatype Event =
    | Provision(create: CreateRequest, createEnv: CreateEnv, arrives: bool)
    | Deprovision(delete: DeleteRequest, deleteEnv: DeleteVolumeEnv)
    | DropPV(volumeID: string)
    | UserWrite(bucket: string, contents: Objects)

  function Step(w: World, e: Event): World {
    match e
    case Provision(req, env, arrives) =>
      var (c, r) := CreateVolumeResult(w.cloud, req, env);
      World(c, if r.Created? && arrives then w.pvs[r.volumeID := r.context] else w.pvs)
    case Deprovision(req, env) =>
      World(DeleteVolumeResult(w.cloud, w.pvs, req, env).0, w.pvs)
    case DropPV(v) =>
      World(w.cloud, w.pvs - {v})
    case UserWrite(b, contents) =>
      if b in w.cloud then World(w.cloud[b := w.cloud[b].(objects := contents)], w.pvs) else w
  }

  function Run(w: World, events: seq<Event>): World {
    if events == [] then w else Step(Run(w, events[..|events| - 1]), events[|events| - 1])
  }

  lemma {:induction false} RunConcat(w: World, a: seq<Event>, b: seq<Event>)
    ensures Run(w, a + b) == Run(Run(w, a), b)
  {
    if b == [] {
      assert a + b == a;
    } else {
      var n := |b| - 1;
      RunConcat(w, a, b[..n]);
      assert (a + b)[..|a + b| - 1] == a + b[..n];
    }
  }

  lemma RunCons(w: World, e: Event, events: seq<Event>)
    ensures Run(w, [e] + events) == Run(Step(w, e), events)
  {
    RunConcat(w, [e], events);
    assert [e][..0] == [];
    assert Run(w, []) == w;
  }

  lemma TwoSteps(w: World, e1: Event, e2: Event)
    ensures Run(w, [e1, e2]) == Step(Step(w, e1), e2)
  {
    RunCons(w, e1, [e2]);
    RunCons(Step(w, e1), e2, []);
    assert [e1, e2] == [e1] + [e2] && [e2] == [e2] + [];
  }

  lemma ThreeSteps(w: World, e1: Event, e2: Event, e3: Event)
    ensures Run(w, [e1, e2, e3]) == Step(Step(Step(w, e1), e2), e3)
  {
    RunCons(w, e1, [e2, e3]);
    TwoSteps(Step(w, e1), e2, e3);
    assert [e1, e2, e3] == [e1] + [e2, e3];
  }

  lemma FourSteps(w: World, e1: Event, e2: Event, e3: Event, e4: Event)
    ensures Run(w, [e1, e2, e3, e4]) == Step(Step(Step(Step(w, e1), e2), e3), e4)
  {
    RunCons(w, e1, [e2, e3, e4]);
    ThreeSteps(Step(w, e1), e2, e3, e4);
    assert [e1, e2, e3, e4] == [e1] + [e2, e3, e4];
  }

  /** No CreateVolume of the run takes an existing bucket for its own. */
  predicate NothingClaimed(w: World, events: seq<Event>) {
    forall i | 0 <= i < |events| && events[i].Provision? ::
      !Claims(Run(w, events[..i]).cloud, events[i].create, events[i].createEnv)
  }

  /** It is enough that the first check of a named bucket is answered and that temporary names are
      fresh; everything else may fail in any way. */
  predicate Truthful(w: World, events: seq<Event>) {
    forall i | 0 <= i < |events| && events[i].Provision? && Prepare(events[i].create).Ok? ::
      if Prepare(events[i].create).value.bucketName != "" then events[i].createEnv.head == Answered
      else events[i].createEnv.tempBucketName !in Run(w, events[..i]).cloud
  }

  lemma TruthfulClaimsNothing(w: World, events: seq<Event>)
    requires Truthful(w, events)
    ensures NothingClaimed(w, events)
  {
    forall i | 0 <= i < |events| && events[i].Provision?
      ensures !Claims(Run(w, events[..i]).cloud, events[i].create, events[i].createEnv)
    {
      if Prepare(events[i].create).Ok? {
        ClaimsExactly(Run(w, events[..i]).cloud, events[i].create, events[i].createEnv);
      }
    }
  }

  /** The contents the users themselves last gave bucket b. */
  function UserContents(start: Objects, events: seq<Event>, b: string): Objects {
    if events == [] then start
    else
      var e := events[|events| - 1];
      if e.UserWrite? && e.bucket == b then e.contents else UserContents(start, events[..|events| - 1], b)
  }

  /** No PV hands a protected bucket to DeleteVolume. */
  predicate Safe(w: World, protected: set<string>) {
    && protected <= w.cloud.Keys
    && forall v | v in w.pvs && BucketToDelete(w.pvs[v]) != "" :: BucketToDelete(w.pvs[v]) !in protected
  }

  lemma StepIsSafe(w: World, e: Event, protected: set<string>, b: string)
    requires Safe(w, protected) && b in protected
    requires e.Provision? ==> !Claims(w.cloud, e.create, e.createEnv)
    ensures Safe(Step(w, e), protected)
    ensures var before, after := w.cloud[b], Step(w, e).cloud[b];
            && after.owner == before.owner && after.guests == before.guests
            && after.objects == if e.UserWrite? && e.bucket == b then e.contents else before.objects
  {
    match e
    case Provision(req, env, arrives) =>
      ProvisionIsSafe(w, req, env, protected);
    case Deprovision(req, env) =>
      DeprovisionIsSafe(w, req, env, protected, b);
    case DropPV(v) =>
    case UserWrite(b', contents) =>
  }

  lemma DeprovisionIsSafe(w: World, del: DeleteRequest, env: DeleteVolumeEnv, protected: set<string>, b: string)
    requires Safe(w, protected) && b in protected
    ensures var w' := Step(w, Deprovision(del, env));
            w'.pvs == w.pvs && protected <= w'.cloud.Keys && w'.cloud[b] == w.cloud[b]
  {
    DeleteActsWhenReached(w.cloud, w.pvs, del, env);
  }

  lemma ProvisionIsSafe(w: World, req: CreateRequest, env: CreateEnv, protected: set<string>)
    requires Safe(w, protected) && !Claims(w.cloud, req, env)
    ensures var (c', r) := CreateVolumeResult(w.cloud, req, env);
            && protected <= c'.Keys
            && (r.Created? && BucketToDelete(r.context) != "" ==> BucketToDelete(r.context) !in protected)
            && forall b | b in protected ::
                 c'[b].objects == w.cloud[b].objects && c'[b].owner == w.cloud[b].owner && c'[b].guests == w.cloud[b].guests
  {
    var (c', r) := CreateVolumeResult(w.cloud, req, env);
    if r.Created? {
      SuccessIsRecorded(w.cloud, req, env);
      var own := r.context.bucketName;
      if own !in w.cloud {
        assert forall b | b in protected :: b in c' - {own} && c'[b] == (c' - {own})[b];
      }
    } else {
      FailureIsContained(w.cloud, req, env);
      if Prepare(req).Ok? {
        var own := OwnBucket(Prepare(req).value, env);
        forall b | b in protected
          ensures c'[b].owner == w.cloud[b].owner && c'[b].guests == w.cloud[b].guests
        {
          if b != own {
            assert b in c' - {own} && (c' - {own})[b] == (w.cloud - {own})[b];
          } else {
            OwnFailure(w.cloud, req, env);
          }
        }
      }
    }
  }

  /** A failed call never changes who may reach its own bucket, if that bucket was there. */
  lemma OwnFailure(c: Cloud, req: CreateRequest, env: CreateEnv)
    requires Prepare(req).Ok? && !Claims(c, req, env) && CreateVolumeResult(c, req, env).1.Failed?
    requires OwnBucket(Prepare(req).value, env) in c
    ensures var b, c' := OwnBucket(Prepare(req).value, env), CreateVolumeResult(c, req, env).0;
            b in c' && c'[b].owner == c[b].owner && c'[b].guests == c[b].guests
  {
    var plan := Prepare(req).value;
    var b := OwnBucket(plan, env);
    var (c1, ok, owned) := Obtain(c, plan, env);
    if b != "" && ok {
      SettleExactly(c1, b, plan, owned, env);
    }
  }

  /** User data safety. Over every run of creates, deletes, lost answers and user writes, with any
      call failing in any way, a protected bucket stays, keeps its owner and guests, and holds
      exactly what its users last put there, so long as no create claims an existing bucket. */
  lemma {:induction false} UserDataIsSafe(w: World, events: seq<Event>, protected: set<string>, b: string)
    requires Safe(w, protected) && NothingClaimed(w, events) && b in protected
    ensures Safe(Run(w, events), protected)
    ensures var before, after := w.cloud[b], Run(w, events).cloud[b];
            && after.owner == before.owner && after.guests == before.guests
            && after.objects == UserContents(before.objects, events, b)
  {
    if events != [] {
      var n := |events| - 1;
      forall i | 0 <= i < n && events[..n][i].Provision?
        ensures !Claims(Run(w, events[..n][..i]).cloud, events[..n][i].create, events[..n][i].createEnv)
      {
        assert events[..n][..i] == events[..i];
      }
      UserDataIsSafe(w, events[..n], protected, b);
      StepIsSafe(Run(w, events[..n]), events[n], protected, b);
    }
  }

  /** From an empty PV table, a bucket that was there at the start survives every truthful run: who
      owns it and who may reach it stays, and it holds what its users last put there. */
  lemma InitialBucketsSurvive(c: Cloud, events: seq<Event>, b: string)
    requires b in c && Truthful(World(c, map[]), events)
    ensures b in Run(World(c, map[]), events).cloud
    ensures var after := Run(World(c, map[]), events).cloud[b];
            && after.objects == UserContents(c[b].objects, events, b)
            && after.owner == c[b].owner && after.guests == c[b].guests
  {
    TruthfulClaimsNothing(World(c, map[]), events);
    UserDataIsSafe(World(c, map[]), events, c.Keys, b);
  }

  // ---------------------------------------------------------------- deleting a volume

  /** DeleteVolume gets as far as its bucket: the volume is on record, and the secret of the request,
      or without one the secret its PV leads to, holds credentials. */
  predicate Reaches(pvs: PVs, del: DeleteRequest, env: DeleteVolumeEnv) {
    del.volumeID != "" && del.volumeID in pvs && HasCredentials(del, env) && env.pvAgain
  }

  predicate HasCredentials(del: DeleteRequest, env: DeleteVolumeEnv) {
    if del.secrets.Some? then ValidCredentials(del.secrets.value)
    else env.pv && del.pvSecret.Some? && ValidCredentials(ParseCustomSecret(del.pvSecret.value))
  }

  /** Exactly then does it touch the store; it reports success whatever the second lookup and the
      delete answer. */
  lemma DeleteActsWhenReached(c: Cloud, pvs: PVs, del: DeleteRequest, env: DeleteVolumeEnv)
    ensures var (c', r) := DeleteVolumeResult(c, pvs, del, env);
            && (if Reaches(pvs, del, env) then
                  var b := BucketToDelete(pvs[del.volumeID]);
                  c' == if b != "" then Delete(c, env.account, b, env.delete).0 else c
                else c' == c)
            && (del.volumeID in pvs ==> (r == Ok(()) <==> del.volumeID != "" && HasCredentials(del, env)))
  {
  }

  /** A DeleteVolume that reaches its bucket, all of whose calls are answered, with pages of `size`. */
  ghost predicate CalmDeletion(w: World, del: DeleteRequest, env: DeleteVolumeEnv, size: nat) {
    && Reaches(w.pvs, del, env) && Calm(env.delete)
    && var b := BucketToDelete(w.pvs[del.volumeID]);
       b in w.cloud ==> PageOf(env.delete.page, w.cloud[b].objects, size)
  }

  /** Bucket b of c after a calm delete: gone if its objects fit a page, else a page shorter. */
  predicate OnePageGone(c: Cloud, c': Cloud, b: string, size: nat) {
    b in c && if |c[b].objects| <= size then c' == c - {b}
              else b in c' && c' - {b} == c - {b} && |c'[b].objects| == |c[b].objects| - size
  }

  lemma CalmDeprovision(w: World, del: DeleteRequest, env: DeleteVolumeEnv, b: string, size: nat)
    requires CalmDeletion(w, del, env, size) && BucketToDelete(w.pvs[del.volumeID]) == b != ""
    requires Accessible(w.cloud, env.account, b)
    ensures OnePageGone(w.cloud, Step(w, Deprovision(del, env)).cloud, b, size)
  {
    DeleteActsWhenReached(w.cloud, w.pvs, del, env);
    CalmDelete(w.cloud, env.account, b, env.delete, size);
    var c' := Delete(w.cloud, env.account, b, env.delete).0;
    if |w.cloud[b].objects| > size {
      assert c' - {b} == w.cloud - {b};
    }
  }

  /** "DeleteVolume succeeded" does not mean that the volume's bucket is gone. For every outcome of
      every call: it reports success and leaves the bucket exactly when the request gets past the
      credentials and then the second PV lookup, or any call of the delete, fails, or a page does
      not hold all objects. All those errors are dropped. */
  lemma SilentLeak(w: World, del: DeleteRequest, env: DeleteVolumeEnv, b: string)
    requires del.volumeID in w.pvs && BucketToDelete(w.pvs[del.volumeID]) == b != "" && b in w.cloud
    ensures var (c', r) := DeleteVolumeResult(w.cloud, w.pvs, del, env);
            r == Ok(()) && b in c' <==>
            del.volumeID != "" && HasCredentials(del, env) &&
            !(env.pvAgain && Removes(w.cloud, env.account, b, env.delete))
  {
    DeleteActsWhenReached(w.cloud, w.pvs, del, env);
    DeleteRemovesExactly(w.cloud, env.account, b, env.delete);
  }

  /** With every call answered that is exactly when more objects are stored than fit one page. */
  lemma CalmSilentLeak(w: World, del: DeleteRequest, env: DeleteVolumeEnv, b: string, size: nat)
    requires CalmDeletion(w, del, env, size) && BucketToDelete(w.pvs[del.volumeID]) == b != ""
    requires Accessible(w.cloud, env.account, b)
    ensures var (c', r) := DeleteVolumeResult(w.cloud, w.pvs, del, env);
            r == Ok(()) && (b in c' <==> |w.cloud[b].objects| > size)
  {
    DeleteActsWhenReached(w.cloud, w.pvs, del, env);
    CalmDeprovision(w, del, env, b, size);
  }

  /** A calm delete leaves a bucket as it is exactly when it is not the one recorded as the volume's
      own. Who else mounts the bucket makes no difference. */
  lemma DeleteSparesExactly(w: World, del: DeleteRequest, env: DeleteVolumeEnv, size: nat, b: string)
    requires CalmDeletion(w, del, env, size) && size > 0 && b in w.cloud && b != ""
    requires var own := BucketToDelete(w.pvs[del.volumeID]); own != "" ==> Accessible(w.cloud, env.account, own)
    ensures var c' := Step(w, Deprovision(del, env)).cloud;
            && (b in c' && c'[b] == w.cloud[b] <==> BucketToDelete(w.pvs[del.volumeID]) != b)
            && (b in c' && c'[b].objects == w.cloud[b].objects <==> BucketToDelete(w.pvs[del.volumeID]) != b)
  {
    var own, c' := BucketToDelete(w.pvs[del.volumeID]), Step(w, Deprovision(del, env)).cloud;
    if own == "" {
      DeleteActsWhenReached(w.cloud, w.pvs, del, env);
    } else {
      CalmDeprovision(w, del, env, own, size);
      OnePageElsewhere(w.cloud, c', own, size, b);
    }
  }

  lemma OnePageElsewhere(c: Cloud, c': Cloud, own: string, size: nat, b: string)
    requires OnePageGone(c, c', own, size) && size > 0 && b in c
    ensures if b == own then b !in c' || c'[b].objects != c[b].objects else b in c' && c'[b] == c[b]
  {
    if b != own {
      SameElsewhere(c, c', own, b);
    }
  }

  lemma SameElsewhere(c: Cloud, c': Cloud, own: string, b: string)
    requires c' - {own} == c - {own} && b in c && b != own
    ensures b in c' && c'[b] == c[b]
  {
    assert b in c - {own} && (c - {own})[b] == c[b];
    assert b in c' - {own} && (c' - {own})[b] == c'[b];
  }

  /** Only a recorded "true" protects a bucket: whatever else the context of a PV says, or leaves out,
      a delete that can remove the bucket it names does. */
  lemma OnlyTrueProtects(w: World, del: DeleteRequest, env: DeleteVolumeEnv)
    requires Reaches(w.pvs, del, env)
    requires var b := w.pvs[del.volumeID].bucketName; b != "" && b in w.cloud && Removes(w.cloud, env.account, b, env.delete)
    ensures var context := w.pvs[del.volumeID];
            context.bucketName in Step(w, Deprovision(del, env)).cloud <==> context.userProvidedBucket == "true"
  {
    DeleteActsWhenReached(w.cloud, w.pvs, del, env);
    DeleteRemovesExactly(w.cloud, env.account, w.pvs[del.volumeID].bucketName, env.delete);
  }

  // ---------------------------------------------------------------- what claiming costs

  /** The volume's world after a create whose answer arrives. */
  lemma RecordedBucket(w: World, req: CreateRequest, env: CreateEnv) returns (w1: World, b: string)
    requires CreateVolumeResult(w.cloud, req, env).1.Created?
    ensures Prepare(req).Ok? && b == OwnBucket(Prepare(req).value, env) != ""
    ensures w1 == Step(w, Provision(req, env, true)) && Accessible(w1.cloud, env.account, b)
    ensures req.volumeID in w1.pvs && w1.pvs[req.volumeID].bucketName == b
    ensures !Claims(w.cloud, req, env) && b in w.cloud ==>
              BucketToDelete(w1.pvs[req.volumeID]) == "" && OnlySettings(w.cloud, w1.cloud, b)
    ensures !Claims(w.cloud, req, env) && b !in w.cloud ==>
              BucketToDelete(w1.pvs[req.volumeID]) == b && w1.cloud - {b} == w.cloud && w1.cloud[b].owner == env.account
    ensures Claims(w.cloud, req, env) ==> BucketToDelete(w1.pvs[req.volumeID]) == b && OnlySettings(w.cloud, w1.cloud, b)
  {
    w1 := Step(w, Provision(req, env, true));
    b := OwnBucket(Prepare(req).value, env);
    CreatedIsReachable(w.cloud, req, env);
    if Claims(w.cloud, req, env) {
      ClaimedSettings(w.cloud, req, env);
    } else {
      SuccessIsRecorded(w.cloud, req, env);
    }
  }

  lemma ClaimedSettings(c: Cloud, req: CreateRequest, env: CreateEnv)
    requires Claims(c, req, env) && CreateVolumeResult(c, req, env).1.Created?
    ensures var (c', r) := CreateVolumeResult(c, req, env);
            var b := OwnBucket(Prepare(req).value, env);
            BucketToDelete(r.context) == b && OnlySettings(c, c', b)
  {
    var plan := Prepare(req).value;
    assert Obtain(c, plan, env).0 == c;
    SettleExactly(c, OwnBucket(plan, env), plan, true, env);
  }

  /** Whenever a create claims an existing bucket and succeeds, in whichever way and whatever else
      failed, a calm delete of its volume takes the bucket, or a page of its objects. */
  lemma ClaimedBucketIsDeleted(w: World, req: CreateRequest, env: CreateEnv, del: DeleteRequest, delEnv: DeleteVolumeEnv,
                               size: nat)
    requires Claims(w.cloud, req, env) && CreateVolumeResult(w.cloud, req, env).1.Created?
    requires del.volumeID == req.volumeID && delEnv.account == env.account
    requires CalmDeletion(Step(w, Provision(req, env, true)), del, delEnv, size)
    ensures OnePageGone(w.cloud, Run(w, [Provision(req, env, true), Deprovision(del, delEnv)]).cloud,
                        OwnBucket(Prepare(req).value, env), size)
  {
    var w1, b := RecordedBucket(w, req, env);
    TwoSteps(w, Provision(req, env, true), Deprovision(del, delEnv));
    CalmDeprovision(w1, del, delEnv, b, size);
    SettingsDoNotMatter(w.cloud, w1.cloud, b);
  }

  lemma SettingsDoNotMatter(c: Cloud, c1: Cloud, b: string)
    requires OnlySettings(c, c1, b)
    ensures c1 - {b} == c - {b} && c1[b].objects == c[b].objects
  {
  }

  /** Claiming is the exact condition for losing data: create a volume in any world, with any calls
      failing, and delete it calmly. A bucket that was there before keeps its objects if and only if
      it is not a bucket that the create claimed. */
  lemma HarmsExactlyTheClaimed(w: World, req: CreateRequest, env: CreateEnv, del: DeleteRequest, delEnv: DeleteVolumeEnv,
                               size: nat, b: string)
    requires b in w.cloud && b != "" && size > 0 && CreateVolumeResult(w.cloud, req, env).1.Created?
    requires del.volumeID == req.volumeID && delEnv.account == env.account
    requires CalmDeletion(Step(w, Provision(req, env, true)), del, delEnv, size)
    ensures Prepare(req).Ok?
    ensures var c' := Run(w, [Provision(req, env, true), Deprovision(del, delEnv)]).cloud;
            b in c' && c'[b].objects == w.cloud[b].objects <==>
            !(Claims(w.cloud, req, env) && b == OwnBucket(Prepare(req).value, env))
  {
    var w1, own := RecordedBucket(w, req, env);
    TwoSteps(w, Provision(req, env, true), Deprovision(del, delEnv));
    RecordedKeepsObjects(w.cloud, w1.cloud, own, b);
    DeleteSparesExactly(w1, del, delEnv, size, b);
  }

  lemma RecordedKeepsObjects(c: Cloud, c1: Cloud, own: string, b: string)
    requires b in c && own in c1
    requires if own in c then OnlySettings(c, c1, own) else c1 - {own} == c
    ensures b in c1 && c1[b].objects == c[b].objects
  {
    if own !in c {
      KeepsOthers(c, c1, own);
    }
  }

  /** One unanswered first check is enough: a create over a bucket that the account can reach, and
      owns or is told of in a tolerated way, succeeds and records the bucket as the driver's; a calm
      delete then takes it, or a page of it. */
  lemma OneFailedCheckLosesABucket(w: World, req: CreateRequest, env: CreateEnv, del: DeleteRequest, delEnv: DeleteVolumeEnv,
                                   size: nat)
    requires Prepare(req).Ok? && Prepare(req).value.bucketName != ""
    requires var b := Prepare(req).value.bucketName;
             Accessible(w.cloud, env.account, b) && (w.cloud[b].owner == env.account || env.smithy)
    requires env.head != Answered && env.create == env.recheck == env.quota == env.versioning == Answered
    requires del.volumeID == req.volumeID && delEnv.account == env.account
    requires CalmDeletion(Step(w, Provision(req, env, true)), del, delEnv, size)
    ensures OnePageGone(w.cloud, Run(w, [Provision(req, env, true), Deprovision(del, delEnv)]).cloud,
                        Prepare(req).value.bucketName, size)
  {
    var plan := Prepare(req).value;
    ClaimsExactly(w.cloud, req, env);
    assert Obtain(w.cloud, plan, env) == (w.cloud, true, true);
    CalmSettle(w.cloud, plan.bucketName, plan, true, env);
    ClaimedBucketIsDeleted(w, req, env, del, delEnv, size);
  }

  // ---------------------------------------------------------------- create, then delete

  /** A create that had to make its bucket, whatever it needed to succeed, then any contents, then a
      calm delete by the same account: if the contents fit a page the store is what it was. */
  lemma CreateThenDelete(w: World, req: CreateRequest, env: CreateEnv, contents: Objects,
                         del: DeleteRequest, delEnv: DeleteVolumeEnv, size: nat)
    requires Prepare(req).Ok? && OwnBucket(Prepare(req).value, env) !in w.cloud
    requires CreateVolumeResult(w.cloud, req, env).1.Created? && |contents| <= size
    requires del.volumeID == req.volumeID && delEnv.account == env.account
    requires CalmDeletion(Filled(w, req, env, contents), del, delEnv, size)
    ensures var b := OwnBucket(Prepare(req).value, env);
            Run(w, [Provision(req, env, true), UserWrite(b, contents), Deprovision(del, delEnv)]).cloud == w.cloud
  {
    var w1, b := RecordedBucket(w, req, env);
    ThreeSteps(w, Provision(req, env, true), UserWrite(b, contents), Deprovision(del, delEnv));
    FillAndDelete(w1, b, contents, del, delEnv, size);
  }

  /** The world after a create and one write by the volume's users. */
  function Filled(w: World, req: CreateRequest, env: CreateEnv, contents: Objects): World
    requires Prepare(req).Ok?
  {
    Step(Step(w, Provision(req, env, true)), UserWrite(OwnBucket(Prepare(req).value, env), contents))
  }

  lemma WriteStaysHome(w: World, b: string, contents: Objects)
    requires b in w.cloud
    ensures var w' := Step(w, UserWrite(b, contents));
            && w'.pvs == w.pvs && w'.cloud - {b} == w.cloud - {b} && b in w'.cloud
            && w'.cloud[b].objects == contents
            && w'.cloud[b].owner == w.cloud[b].owner && w'.cloud[b].guests == w.cloud[b].guests
  {
  }

  lemma FillAndDelete(w: World, b: string, contents: Objects, del: DeleteRequest, env: DeleteVolumeEnv, size: nat)
    requires Accessible(w.cloud, env.account, b) && b != ""
    requires del.volumeID in w.pvs && BucketToDelete(w.pvs[del.volumeID]) == b
    requires CalmDeletion(Step(w, UserWrite(b, contents)), del, env, size)
    ensures var w' := Step(Step(w, UserWrite(b, contents)), Deprovision(del, env));
            && w'.pvs == w.pvs
            && if |contents| <= size then w'.cloud == w.cloud - {b}
               else b in w'.cloud && w'.cloud - {b} == w.cloud - {b} && |w'.cloud[b].objects| == |contents| - size
  {
    WriteStaysHome(w, b, contents);
    CalmDeprovision(Step(w, UserWrite(b, contents)), del, env, b, size);
  }

  /** While a volume's bucket is gone, DeleteVolume changes nothing, whatever fails. */
  lemma {:induction false} GoneStaysGone(w: World, volumeID: string, again: seq<Event>)
    requires volumeID in w.pvs ==> BucketToDelete(w.pvs[volumeID]) !in w.cloud
    requires forall e | e in again :: e.Deprovision? && e.delete.volumeID == volumeID
    ensures Run(w, again) == w
  {
    if again != [] {
      var n := |again| - 1;
      GoneStaysGone(w, volumeID, again[..n]);
      assert again[n] in again;
      DeleteActsWhenReached(w.cloud, w.pvs, again[n].delete, again[n].deleteEnv);
    }
  }

  /** After such a round any number of further deletes of the volume, by anyone and failing in any
      way, leaves the store as it was before the create. */
  lemma DeletedStaysDeleted(w: World, req: CreateRequest, env: CreateEnv, contents: Objects,
                            del: DeleteRequest, delEnv: DeleteVolumeEnv, size: nat, again: seq<Event>)
    requires Prepare(req).Ok? && OwnBucket(Prepare(req).value, env) !in w.cloud
    requires CreateVolumeResult(w.cloud, req, env).1.Created? && |contents| <= size
    requires del.volumeID == req.volumeID && delEnv.account == env.account
    requires CalmDeletion(Filled(w, req, env, contents), del, delEnv, size)
    requires forall e | e in again :: e.Deprovision? && e.delete.volumeID == req.volumeID
    ensures var b := OwnBucket(Prepare(req).value, env);
            Run(w, [Provision(req, env, true), UserWrite(b, contents), Deprovision(del, delEnv)] + again).cloud == w.cloud
  {
    var w1, b := RecordedBucket(w, req, env);
    var events := [Provision(req, env, true), UserWrite(b, contents), Deprovision(del, delEnv)];
    CreateThenDelete(w, req, env, contents, del, delEnv, size);
    ThreeSteps(w, Provision(req, env, true), UserWrite(b, contents), Deprovision(del, delEnv));
    RunConcat(w, events, again);
    assert Run(w, events).pvs == w1.pvs;
    GoneStaysGone(Run(w, events), req.volumeID, again);
  }

  // ---------------------------------------------------------------- lost answers and shared buckets

  /** A create that made its bucket and whose answer is lost leaves the bucket to nobody: it stays
      through every further run, retries and deletes included, in which no create claims an existing
      bucket. */
  lemma LostAnswerLeaks(w: World, req: CreateRequest, env: CreateEnv, events: seq<Event>)
    requires Prepare(req).Ok? && OwnBucket(Prepare(req).value, env) !in w.cloud
    requires CreateVolumeResult(w.cloud, req, env).1.Created?
    requires forall v | v in w.pvs :: BucketToDelete(w.pvs[v]) != OwnBucket(Prepare(req).value, env)
    requires NothingClaimed(Step(w, Provision(req, env, false)), events)
    ensures OwnBucket(Prepare(req).value, env) in Run(w, [Provision(req, env, false)] + events).cloud
  {
    var b := OwnBucket(Prepare(req).value, env);
    var w1 := Step(w, Provision(req, env, false));
    CreatedIsReachable(w.cloud, req, env);
    UserDataIsSafe(w1, events, {b}, b);
    RunCons(w, Provision(req, env, false), events);
  }

  /** Repeating a create of a named bucket, with the same credentials and any calls failing: both
      answers are the same if and only if the first checks of both calls see the bucket or neither
      does. The second check finds what the first call made, so a repetition whose check is answered
      forgets that the driver made it: no DeleteVolume removes it any more. */
  lemma RetryForgetsOwnership(c: Cloud, req: CreateRequest, env: CreateEnv, retry: CreateEnv)
    requires Prepare(req).Ok? && Prepare(req).value.bucketName != "" && retry.account == env.account
    requires CreateVolumeResult(c, req, env).1.Created?
    requires CreateVolumeResult(CreateVolumeResult(c, req, env).0, req, retry).1.Created?
    ensures var b := Prepare(req).value.bucketName;
            var (c1, first) := CreateVolumeResult(c, req, env);
            var (c2, second) := CreateVolumeResult(c1, req, retry);
            && (second == first <==> (Heads(c, env.account, b, env.head) <==> retry.head == Answered))
            && (BucketToDelete(first.context) == "" <==> Heads(c, env.account, b, env.head))
            && (BucketToDelete(second.context) == "" <==> retry.head == Answered)
  {
    CreatedIsReachable(c, req, env);
    CreatedIsReachable(CreateVolumeResult(c, req, env).0, req, retry);
  }

  /** Without a named bucket both answers are the same if and only if both calls make up the same name.
      A repetition under another name makes a second bucket and only that one is recorded; the first
      is left to LostAnswerLeaks. */
  lemma RetryMakesASecondBucket(w: World, req: CreateRequest, env: CreateEnv, retry: CreateEnv)
    requires Prepare(req).Ok? && Prepare(req).value.bucketName == ""
    requires CreateVolumeResult(w.cloud, req, env).1.Created?
    requires CreateVolumeResult(Step(w, Provision(req, env, false)).cloud, req, retry).1.Created?
    ensures var first := CreateVolumeResult(w.cloud, req, env).1;
            var second := CreateVolumeResult(Step(w, Provision(req, env, false)).cloud, req, retry).1;
            second == first <==> retry.tempBucketName == env.tempBucketName
    ensures var w2 := Run(w, [Provision(req, env, false), Provision(req, retry, true)]);
            && env.tempBucketName in w2.cloud && retry.tempBucketName in w2.cloud
            && w2.pvs - {req.volumeID} == w.pvs - {req.volumeID}
            && req.volumeID in w2.pvs && BucketToDelete(w2.pvs[req.volumeID]) == retry.tempBucketName
  {
    CreatedIsReachable(w.cloud, req, env);
    var w1 := Step(w, Provision(req, env, false));
    TwoSteps(w, Provision(req, env, false), Provision(req, retry, true));
    CreatedIsReachable(w1.cloud, req, retry);
    CreateKeepsBucket(w1.cloud, req, retry, env.tempBucketName);
  }

  /** A create that succeeds takes no bucket away. */
  lemma CreateKeepsBucket(c: Cloud, req: CreateRequest, env: CreateEnv, b: string)
    requires b in c && CreateVolumeResult(c, req, env).1.Created?
    ensures b in CreateVolumeResult(c, req, env).0
  {
    CreatedIsReachable(c, req, env);
    if Claims(c, req, env) {
      ClaimedSettings(c, req, env);
    } else {
      SuccessIsRecorded(c, req, env);
      var own, c' := OwnBucket(Prepare(req).value, env), CreateVolumeResult(c, req, env).0;
      RecordedKeepsObjects(c, c', own, b);
    }
  }

  /** A create whose first check sees its bucket leaves it to its user. */
  lemma SecondUser(w: World, req: CreateRequest, env: CreateEnv) returns (w1: World, b: string)
    requires CreateVolumeResult(w.cloud, req, env).1.Created? && env.head == Answered
    requires Prepare(req).Ok? && Prepare(req).value.bucketName != "" && Prepare(req).value.bucketName in w.cloud
    ensures w1 == Step(w, Provision(req, env, true)) && b == Prepare(req).value.bucketName
    ensures w1.pvs.Keys == w.pvs.Keys + {req.volumeID} && w1.pvs - {req.volumeID} == w.pvs - {req.volumeID}
    ensures w1.pvs[req.volumeID].bucketName == b && BucketToDelete(w1.pvs[req.volumeID]) == ""
    ensures b in w1.cloud && w1.cloud - {b} == w.cloud - {b} && w1.cloud[b].owner == w.cloud[b].owner
  {
    ClaimsExactly(w.cloud, req, env);
    w1, b := RecordedBucket(w, req, env);
  }

  lemma SharedBucket(w: World, req: CreateRequest, env: CreateEnv, req2: CreateRequest, env2: CreateEnv)
    returns (w2: World, b: string)
    requires Prepare(req).Ok? && Prepare(req2).Ok? && req.volumeID != req2.volumeID
    requires Prepare(req).value.bucketName == Prepare(req2).value.bucketName != ""
    requires Prepare(req).value.bucketName !in w.cloud && env.account == env2.account && env2.head == Answered
    requires CreateVolumeResult(w.cloud, req, env).1.Created?
    requires CreateVolumeResult(Step(w, Provision(req, env, true)).cloud, req2, env2).1.Created?
    ensures w2 == Step(Step(w, Provision(req, env, true)), Provision(req2, env2, true))
    ensures b == Prepare(req).value.bucketName && Accessible(w2.cloud, env.account, b) && w2.cloud - {b} == w.cloud
    ensures req.volumeID in w2.pvs && BucketToDelete(w2.pvs[req.volumeID]) == b
    ensures req2.volumeID in w2.pvs && w2.pvs[req2.volumeID].bucketName == b
    ensures BucketToDelete(w2.pvs[req2.volumeID]) == ""
  {
    var w1, _ := RecordedBucket(w, req, env);
    w2, b := SecondUser(w1, req2, env2);
    OtherKey(w1.pvs, w2.pvs, req2.volumeID, req.volumeID);
  }

  /** Two volumes over one new bucket, the second created in any way that sees the bucket: only the
      first owns it, and a calm delete of the first takes what the second volume's users have
      written, all of it or a page. */
  lemma SharedBucketGoesWithItsOwner(w: World, req: CreateRequest, env: CreateEnv, req2: CreateRequest, env2: CreateEnv,
                                     contents: Objects, del: DeleteRequest, delEnv: DeleteVolumeEnv, size: nat)
    requires Prepare(req).Ok? && Prepare(req2).Ok? && req.volumeID != req2.volumeID
    requires Prepare(req).value.bucketName == Prepare(req2).value.bucketName != "" && Prepare(req).value.bucketName !in w.cloud
    requires env.account == env2.account == delEnv.account && env2.head == Answered
    requires CreateVolumeResult(w.cloud, req, env).1.Created?
    requires CreateVolumeResult(Step(w, Provision(req, env, true)).cloud, req2, env2).1.Created?
    requires del.volumeID == req.volumeID
    requires CalmDeletion(Filled(Step(w, Provision(req, env, true)), req2, env2, contents), del, delEnv, size)
    ensures var b := Prepare(req).value.bucketName;
            var w' := Run(w, [Provision(req, env, true), Provision(req2, env2, true),
                              UserWrite(b, contents), Deprovision(del, delEnv)]);
            && req2.volumeID in w'.pvs && w'.pvs[req2.volumeID].bucketName == b && BucketToDelete(w'.pvs[req2.volumeID]) == ""
            && if |contents| <= size then w'.cloud == w.cloud
               else b in w'.cloud && w'.cloud - {b} == w.cloud && |w'.cloud[b].objects| == |contents| - size
  {
    var w2, b := SharedBucket(w, req, env, req2, env2);
    FourSteps(w, Provision(req, env, true), Provision(req2, env2, true),
              UserWrite(b, contents), Deprovision(del, delEnv));
    FillAndDelete(w2, b, contents, del, delEnv, size);
  }

  lemma OtherKey(m: PVs, m': PVs, k: string, j: string)
    requires j in m && k != j && m' - {k} == m - {k}
    ensures j in m' && m'[j] == m[j]
  {
    assert j in m - {k} && (m - {k})[j] == m[j];
    assert j in m' - {k} && (m' - {k})[j] == m'[j];
  }
}
