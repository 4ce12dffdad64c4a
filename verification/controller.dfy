/** CreateVolume and DeleteVolume (pkg/driver/controllerserver.go). */
module Controller {
  import opened GoStrings
  import opened ObjectStorage
  import opened Wrappers

  /** The keys the driver reads from a secret; a missing key reads as "". */
  datatype Secret = Secret(
    accessKey: string, secretKey: string, apiKey: string, serviceId: string, kpRootKeyCRN: string,
    bucketName: string, iamEndpoint: string, cosEndpoint: string, locationConstraint: string,
    bucketVersioning: string, objectPath: string, resourceConfigApiKey: string, quotaLimit: string, mounter: string)

  /** parseCustomSecret copies every key but the mounter. */
  function ParseCustomSecret(s: Secret): Secret {
    s.(mounter := "")
  }

  /** The keys the driver reads or writes in a volume's parameters, later its context. */
  datatype Params = Params(
    pvcName: string, cosEndpoint: string, locationConstraint: string, mounter: string, objectPath: string,
    bucketVersioning: string, userProvidedBucket: string, bucketName: string)

  datatype Code = InvalidArgument | PermissionDenied | Internal | NotFound

  datatype Result<T> = Ok(value: T) | Err(code: Code)

  datatype Capability = Mount | Block

  datatype CreateRequest = CreateRequest(
    volumeID: string, capabilities: Option<seq<Capability>>, params: Params, secrets: Option<Secret>, requiredBytes: int,
    pvcSecret: Option<Secret>)   // what the PVC annotation leads to, if every lookup succeeds

  /** What a valid request asks for. */
  datatype Plan = Plan(params: Params, bucketName: string, quota: Option<int>, versioning: Option<bool>)

  /** strconv.ParseBool */
  function ParseBool(s: string): Option<bool> {
    if s in {"1", "t", "T", "TRUE", "true", "True"} then Some(true)
    else if s in {"0", "f", "F", "FALSE", "false", "False"} then Some(false)
    else None
  }

  function ChosenSecret(req: CreateRequest): Option<Secret> {
    if req.secrets.Some? then req.secrets
    else if req.params.pvcName == "" || req.pvcSecret.None? then None
    else Some(ParseCustomSecret(req.pvcSecret.value))
  }

  function QuotaOf(s: Secret, requiredBytes: int): Result<Option<int>> {
    if s.quotaLimit == "" then Ok(None)
    else
      match ParseBool(s.quotaLimit)
      case None => Err(InvalidArgument)
      case Some(false) => Ok(None)
      case Some(true) =>
        if s.resourceConfigApiKey == "" || requiredBytes <= 0 then Err(InvalidArgument) else Ok(Some(requiredBytes))
  }

  function VersioningOf(s: Secret, p: Params): Result<Option<bool>> {
    var val := if s.bucketVersioning != "" then s.bucketVersioning else p.bucketVersioning;
    if val == "" then Ok(None)
    else if Reads(val, "true") then Ok(Some(true))
    else if Reads(val, "false") then Ok(Some(false))
    else Err(InvalidArgument)
  }

  predicate ValidCredentials(s: Secret) {
    s.serviceId != "" || (s.accessKey != "" && s.secretKey != "")
  }

  /** The checks CreateVolume makes before it touches the store. */
  function Prepare(req: CreateRequest): Result<Plan> {
    if req.volumeID == "" || req.capabilities.None? || Block in req.capabilities.value then Err(InvalidArgument)
    else
      match ChosenSecret(req)
      case None => Err(InvalidArgument)
      case Some(s) =>
        var p := if req.secrets.None? then req.params.(objectPath := s.objectPath) else req.params;
        var quota := QuotaOf(s, req.requiredBytes);
        var endPoint := FirstNonEmpty(s.cosEndpoint, p.cosEndpoint);
        var location := FirstNonEmpty(s.locationConstraint, p.locationConstraint);
        var versioning := VersioningOf(s, p);
        if quota.Err? then Err(quota.code)
        else if endPoint == "" || location == "" then Err(InvalidArgument)
        else if versioning.Err? then Err(versioning.code)
        else if !ValidCredentials(s) then Err(InvalidArgument)
        else
          Ok(Plan(p.(cosEndpoint := endPoint, locationConstraint := location,
                     mounter := FirstNonEmpty(s.mounter, p.mounter), userProvidedBucket := "true"),
                  s.bucketName, quota.value, versioning.value))
  }

  // ---------------------------------------------------------------- the saga

  /** What happens to the store calls of one CreateVolume. `account` is who the credentials are;
      `smithy` tells whether the session reports a taken name as a smithy error. */
  datatype CreateEnv = CreateEnv(
    account: Account, head: Outcome, create: Outcome, smithy: bool, recheck: Outcome,
    quota: Outcome, versioning: Outcome, rollback: DeleteEnv, tempBucketName: string)

  /** How far a failed CreateVolume got. */
  datatype Stage = Refused | NotCreated | NotSettled(owned: bool, undone: bool)

  datatype CreateResult = Created(volumeID: string, context: Params) | Failed(code: Code, stage: Stage)

  /** createBucket: create, tolerating a name clash, and see that the bucket can be reached. */
  function MakeBucket(c: Cloud, b: string, env: CreateEnv): (Cloud, bool) {
    var (c1, err) := Create(c, env.account, b, env.create, env.smithy);
    if err.Some? && err.value != NameTaken(true) then (c1, false)
    else (c1, Heads(c1, env.account, b, env.recheck))
  }

  /** Take the bucket back if this call owns it, and say whether that worked. */
  function Undo(c: Cloud, b: string, owned: bool, env: CreateEnv): (Cloud, bool) {
    if owned then Delete(c, env.account, b, env.rollback) else (c, true)
  }

  /** Quota and versioning, with compensation. None: both settled. */
  function Settle(c: Cloud, b: string, plan: Plan, owned: bool, env: CreateEnv): (Cloud, Option<Stage>) {
    var (c1, quotaOk) := if plan.quota.Some? then PutQuota(c, b, plan.quota.value, env.quota) else (c, true);
    if !quotaOk then
      var (c2, undone) := Undo(c1, b, owned, env);
      (c2, Some(NotSettled(owned, undone)))
    else
      var (c2, versioned) :=
        if plan.versioning.Some? then PutVersioning(c1, env.account, b, plan.versioning.value, env.versioning) else (c1, true);
      if !versioned then
        var (c3, undone) := Undo(c2, b, owned, env);
        (c3, Some(NotSettled(owned, undone)))
      else (c2, None)
  }

  /** The bucket this call works on. */
  function OwnBucket(plan: Plan, env: CreateEnv): string {
    if plan.bucketName != "" then plan.bucketName else env.tempBucketName
  }

  /** The first step: a named bucket that can be reached is the user's; any other is created. */
  function Obtain(c: Cloud, plan: Plan, env: CreateEnv): (Cloud, bool, bool) {   // cloud, ok, owned
    if plan.bucketName != "" && Heads(c, env.account, plan.bucketName, env.head) then (c, true, false)
    else
      var (c1, ok) := MakeBucket(c, OwnBucket(plan, env), env);
      (c1, ok, true)
  }

  /** The saga, from a plan to its outcome. */
  function Provisioned(c: Cloud, volumeID: string, plan: Plan, env: CreateEnv): (Cloud, CreateResult) {
    var b := OwnBucket(plan, env);
    if b == "" then (c, Failed(PermissionDenied, NotCreated))
    else
      var (c1, ok, owned) := Obtain(c, plan, env);
      if !ok then (c1, Failed(PermissionDenied, NotCreated))
      else
        var (c2, stage) := Settle(c1, b, plan, owned, env);
        if stage.Some? then (c2, Failed(Internal, stage.value))
        else (c2, Created(volumeID, plan.params.(userProvidedBucket := if owned then "false" else "true", bucketName := b)))
  }

  function CreateVolumeResult(c: Cloud, req: CreateRequest, env: CreateEnv): (Cloud, CreateResult) {
    match Prepare(req)
    case Err(code) => (c, Failed(code, Refused))
    case Ok(plan) => Provisioned(c, req.volumeID, plan, env)
  }

  /** BucketToDelete: anything but an explicit "true" makes the bucket the driver's to delete. */
  function BucketToDelete(context: Params): string {
    if context.userProvidedBucket != "true" then context.bucketName else ""
  }

  datatype DeleteRequest = DeleteRequest(volumeID: string, secrets: Option<Secret>, pvSecret: Option<Secret>)

  /** `pv` and `pvAgain` tell whether the two lookups of the volume's PV are answered. */
  datatype DeleteVolumeEnv = DeleteVolumeEnv(account: Account, pv: bool, pvAgain: bool, delete: DeleteEnv)

  type PVs = map<string, Params>

  /** Where CreateVolume's session goes. */
  function CreateSite(plan: Plan): Site {
    Site(plan.params.cosEndpoint, plan.params.locationConstraint)
  }

  /** Where DeleteVolume's session goes, or why there is none. A secret that comes with the request
      also says where; the recorded place is used only with a secret found through the PV. */
  function DeleteSession(pvs: PVs, req: DeleteRequest, env: DeleteVolumeEnv): Result<Site> {
    if req.volumeID == "" then Err(InvalidArgument)
    else if req.secrets.None? && !(env.pv && req.volumeID in pvs) then Err(NotFound)
    else if req.secrets.None? && req.pvSecret.None? then Err(InvalidArgument)
    else
      var s := if req.secrets.Some? then req.secrets.value else ParseCustomSecret(req.pvSecret.value);
      if !ValidCredentials(s) then Err(InvalidArgument)
      else if req.secrets.Some? then Ok(Site(s.cosEndpoint, s.locationConstraint))
      else Ok(Site(pvs[req.volumeID].cosEndpoint, pvs[req.volumeID].locationConstraint))
  }

  function DeleteVolumeResult(c: Cloud, pvs: PVs, req: DeleteRequest, env: DeleteVolumeEnv): (Cloud, Result<()>) {
    match DeleteSession(pvs, req, env)
    case Err(code) => (c, Err(code))
    case Ok(_) =>
      if !(env.pvAgain && req.volumeID in pvs) then (c, Ok(()))
      else
        var b := BucketToDelete(pvs[req.volumeID]);
        (if b != "" then Delete(c, env.account, b, env.delete).0 else c, Ok(()))
  }

  class ControllerServer {
    const store: ObjectStore
    var pvs: PVs

    constructor (store: ObjectStore, pvs: PVs)
      ensures this.store == store && this.pvs == pvs
    {
      this.store, this.pvs := store, pvs;
    }

    method CreateBucketFor(sess: COSSession, b: string, env: CreateEnv) returns (ok: bool)
      requires sess.store == store && sess.account == env.account
      modifies store
      ensures (store.cloud, ok) == MakeBucket(old(store.cloud), b, env)
    {
      var err := sess.CreateBucket(b, env.create, env.smithy);
      if err.Some? {
        if err.value != NameTaken(true) {
          return false;
        }
      }
      ok := sess.CheckBucketAccess(b, env.recheck);
    }

    method CreateVolume(req: CreateRequest, env: CreateEnv) returns (r: CreateResult)
      modifies store
      ensures (store.cloud, r) == CreateVolumeResult(old(store.cloud), req, env)
    {
      var prepared := Prepare(req);
      if prepared.Err? {
        return Failed(prepared.code, Refused);
      }
      var plan := prepared.value;
      var params := plan.params;
      var sess := new COSSession(store, env.account, CreateSite(plan));
      var b := plan.bucketName;
      if b != "" {
        var ok := sess.CheckBucketAccess(b, env.head);
        if !ok {
          ok := CreateBucketFor(sess, b, env);
          if !ok {
            return Failed(PermissionDenied, NotCreated);
          }
          params := params.(userProvidedBucket := "false");
        }
      } else {
        b := env.tempBucketName;
        if b == "" {
          return Failed(PermissionDenied, NotCreated);
        }
        var ok := CreateBucketFor(sess, b, env);
        if !ok {
          return Failed(PermissionDenied, NotCreated);
        }
        params := params.(userProvidedBucket := "false");
      }
      var owned := params.userProvidedBucket == "false";
      if plan.quota.Some? {
        var ok := sess.UpdateQuotaLimit(plan.quota.value, b, env.quota);
        if !ok {
          var undone := true;
          if owned {
            undone := sess.DeleteBucket(b, env.rollback);
          }
          return Failed(Internal, NotSettled(owned, undone));
        }
      }
      if plan.versioning.Some? {
        var ok := sess.SetBucketVersioning(b, plan.versioning.value, env.versioning);
        if !ok {
          var undone := true;
          if owned {
            undone := sess.DeleteBucket(b, env.rollback);
          }
          return Failed(Internal, NotSettled(owned, undone));
        }
      }
      params := params.(bucketName := b);
      return Created(req.volumeID, params);
    }

    /** The first half of DeleteVolume: find a secret and the place it goes with. */
    method OpenSession(req: DeleteRequest, env: DeleteVolumeEnv) returns (r: Result<COSSession>)
      ensures match DeleteSession(pvs, req, env)
              case Err(code) => r == Err(code)
              case Ok(site) => r.Ok? && r.value.store == store && r.value.account == env.account && r.value.site == site
    {
      if req.volumeID == "" {
        return Err(InvalidArgument);
      }
      var s, endPoint, location;
      if req.secrets.Some? {
        s := req.secrets.value;
        endPoint, location := s.cosEndpoint, s.locationConstraint;
      } else {
        if !(env.pv && req.volumeID in pvs) {
          return Err(NotFound);
        }
        if req.pvSecret.None? {
          return Err(InvalidArgument);
        }
        endPoint, location := pvs[req.volumeID].cosEndpoint, pvs[req.volumeID].locationConstraint;
        s := ParseCustomSecret(req.pvSecret.value);
      }
      if !ValidCredentials(s) {
        return Err(InvalidArgument);
      }
      var sess := new COSSession(store, env.account, Site(endPoint, location));
      return Ok(sess);
    }

    method DeleteVolume(req: DeleteRequest, env: DeleteVolumeEnv) returns (r: Result<()>)
      modifies store
      ensures (store.cloud, r) == DeleteVolumeResult(old(store.cloud), pvs, req, env)
    {
      var session := OpenSession(req, env);
      if session.Err? {
        return Err(session.code);
      }
      var sess := session.value;
      if !(env.pvAgain && req.volumeID in pvs) {
        return Ok(());
      }
      var bucketToDelete := BucketToDelete(pvs[req.volumeID]);
      if bucketToDelete != "" {
        // an error is logged and dropped
        var _ := sess.DeleteBucket(bucketToDelete, env.delete);
      }
      return Ok(());
    }
  }

  /** What a request that passes the checks asks for: a quota exactly when the secret switches it
      on, and then of the requested, positive size; the secret's word on versioning if it has one,
      else the StorageClass's, and only "true" or "false" in any case count as a word. */
  lemma PlanFollowsSecret(req: CreateRequest)
    requires Prepare(req).Ok?
    ensures ChosenSecret(req).Some?
    ensures var s, plan := ChosenSecret(req).value, Prepare(req).value;
            && (plan.quota.Some? <==> ParseBool(s.quotaLimit) == Some(true))
            && (plan.quota.Some? ==> plan.quota.value == req.requiredBytes > 0 && s.resourceConfigApiKey != "")
            && (s.bucketVersioning != "" ==>
                  plan.versioning.Some? && (plan.versioning.value <==> Reads(s.bucketVersioning, "true")))
            && (s.bucketVersioning == "" && req.params.bucketVersioning != "" ==>
                  plan.versioning.Some? && (plan.versioning.value <==> Reads(req.params.bucketVersioning, "true")))
            && (s.bucketVersioning == "" && req.params.bucketVersioning == "" ==> plan.versioning.None?)
            && plan.bucketName == s.bucketName && ValidCredentials(s)
            && !(Block in req.capabilities.value) && req.volumeID != ""
  {
    var s := ChosenSecret(req).value;
    assert ParseBool("") == None;
  }

  /** The recorded context carries the endpoint and location the secret names, if it names them. */
  lemma ContextRecordsSecret(c: Cloud, req: CreateRequest, env: CreateEnv)
    requires CreateVolumeResult(c, req, env).1.Created?
    ensures ChosenSecret(req).Some?
    ensures var s, context := ChosenSecret(req).value, CreateVolumeResult(c, req, env).1.context;
            && context.cosEndpoint != "" && context.locationConstraint != "" && context.bucketName != ""
            && (s.cosEndpoint != "" ==> context.cosEndpoint == s.cosEndpoint)
            && (s.locationConstraint != "" ==> context.locationConstraint == s.locationConstraint)
            && context.bucketName == (if s.bucketName != "" then s.bucketName else env.tempBucketName)
            && (s.bucketName == "" ==> BucketToDelete(context) == context.bucketName)
  {
  }

  /** DeleteVolume looks for the bucket where CreateVolume made it: with the secret found through the
      PV always, with the secret of the create in the request exactly when that secret itself names
      endpoint and location. What came from the StorageClass is not looked up. */
  lemma DeleteGoesWhereCreateWent(c: Cloud, create: CreateRequest, env: CreateEnv,
                                  pvs: PVs, del: DeleteRequest, delEnv: DeleteVolumeEnv)
    requires del.volumeID in pvs && CreateVolumeResult(c, create, env).1 == Created(del.volumeID, pvs[del.volumeID])
    ensures Prepare(create).Ok? && ChosenSecret(create).Some?
    ensures var site, s := CreateSite(Prepare(create).value), ChosenSecret(create).value;
            && site == Site(pvs[del.volumeID].cosEndpoint, pvs[del.volumeID].locationConstraint)
            && (del.secrets.None? && DeleteSession(pvs, del, delEnv).Ok? ==> DeleteSession(pvs, del, delEnv) == Ok(site))
            && (del.secrets == Some(s) ==>
                  (DeleteSession(pvs, del, delEnv) == Ok(site) <==> s.cosEndpoint != "" && s.locationConstraint != ""))
  {
    ContextRecordsSecret(c, create, env);
  }

  predicate NoUpper(s: string) {
    forall c | c in s :: !('A' <= c <= 'Z')
  }

  predicate NoLower(s: string) {
    forall c | c in s :: !('a' <= c <= 'z')
  }

  /** In lower case, in upper case, or capitalised. */
  predicate EvenlyCased(s: string) {
    NoUpper(s) || NoLower(s) || (s != "" && NoUpper(s[1..]))
  }

  /** strconv.ParseBool takes a digit, a letter or a word, evenly cased, and nothing else. */
  lemma ParseBoolExactly(s: string)
    ensures ParseBool(s) == Some(true) <==> EvenlyCased(s) && ToLower(s) in {"1", "t", "true"}
    ensures ParseBool(s) == Some(false) <==> EvenlyCased(s) && ToLower(s) in {"0", "f", "false"}
  {
    LowerWords();
    EvenTrue();
    EvenFalse();
    if EvenlyCased(s) && ToLower(s) in {"1", "t", "true"} {
      Spellings(s, ToLower(s));
    } else if EvenlyCased(s) && ToLower(s) in {"0", "f", "false"} {
      Spellings(s, ToLower(s));
    }
  }

  lemma EvenTrue()
    ensures EvenlyCased("1") && EvenlyCased("t") && EvenlyCased("T")
    ensures EvenlyCased("TRUE") && EvenlyCased("true") && EvenlyCased("True")
  {
    assert "True"[1..] == "rue";
  }

  lemma EvenFalse()
    ensures EvenlyCased("0") && EvenlyCased("f") && EvenlyCased("F")
    ensures EvenlyCased("FALSE") && EvenlyCased("false") && EvenlyCased("False")
  {
    assert "False"[1..] == "alse";
  }

  function UpperChar(c: char): char {
    if 'a' <= c <= 'z' then c - 32 as char else c
  }

  function ToUpper(s: string): string {
    seq(|s|, i requires 0 <= i < |s| => UpperChar(s[i]))
  }

  lemma NoUpperCons(s: string)
    requires s != "" && !('A' <= s[0] <= 'Z') && NoUpper(s[1..])
    ensures NoUpper(s)
  {
    forall i | 0 <= i < |s| ensures !('A' <= s[i] <= 'Z') {
      if i > 0 {
        assert s[i] == s[1..][i - 1] && s[1..][i - 1] in s[1..];
      }
    }
  }

  lemma UpperOfLower(c: char)
    ensures !('a' <= c <= 'z') ==> UpperChar(LowerChar(c)) == c
  {
  }

  /** An evenly cased string is one of three spellings of what it lowers to. */
  lemma EvenSpelling(s: string, w: string)
    requires EvenlyCased(s) && ToLower(s) == w && w != ""
    ensures s == w || s == ToUpper(w) || s == [UpperChar(w[0])] + w[1..]
  {
    assert |s| == |w|;
    assert forall i | 0 <= i < |s| :: s[i] in s && w[i] == LowerChar(s[i]);
    if NoUpper(s) {
      assert s == w;
    } else if NoLower(s) {
      forall i | 0 <= i < |s| ensures s[i] == UpperChar(w[i]) {
        UpperOfLower(s[i]);
      }
      assert s == ToUpper(w);
    } else {
      UpperOfLower(s[0]);
      assert forall i | 1 <= i < |s| :: s[i] == s[1..][i - 1] && s[1..][i - 1] in s[1..] && w[i] == LowerChar(s[i]);
      assert s[1..] == w[1..];
      assert s[0] == UpperChar(w[0]) by {
        if !('A' <= s[0] <= 'Z') {
          NoUpperCons(s);
        }
      }
      assert s == [s[0]] + s[1..];
    }
  }

  lemma Spellings(s: string, w: string)
    requires EvenlyCased(s) && ToLower(s) == w
    ensures w in {"1", "t", "true"} ==> s in {"1", "t", "T", "TRUE", "true", "True"}
    ensures w in {"0", "f", "false"} ==> s in {"0", "f", "F", "FALSE", "false", "False"}
  {
    UpperWords();
    if w in {"1", "t", "true", "0", "f", "false"} {
      EvenSpelling(s, w);
    }
  }

  lemma UpperWords()
    ensures ToUpper("1") == "1" && ToUpper("t") == "T" && ToUpper("true") == "TRUE"
    ensures ToUpper("0") == "0" && ToUpper("f") == "F" && ToUpper("false") == "FALSE"
    ensures [UpperChar('1')] + "1"[1..] == "1" && [UpperChar('t')] + "t"[1..] == "T"
    ensures [UpperChar('t')] + "true"[1..] == "True" && [UpperChar('f')] + "false"[1..] == "False"
    ensures [UpperChar('0')] + "0"[1..] == "0" && [UpperChar('f')] + "f"[1..] == "F"
  {
  }

  lemma LowerWords()
    ensures ToLower("T") == "t" && ToLower("TRUE") == "true" && ToLower("True") == "true" && ToLower("true") == "true"
    ensures ToLower("F") == "f" && ToLower("FALSE") == "false" && ToLower("False") == "false" && ToLower("false") == "false"
    ensures ToLower("1") == "1" && ToLower("0") == "0" && ToLower("t") == "t" && ToLower("f") == "f"
  {
  }

  /** Where the credentials come from: the request, or without any the secret that the PVC names,
      from which the mounter is not taken over. */
  predicate UsesSecret(req: CreateRequest, s: Secret) {
    if req.secrets.Some? then s == req.secrets.value
    else req.params.pvcName != "" && req.pvcSecret.Some? && s == req.pvcSecret.value.(mounter := "")
  }

  predicate ReadsAsBool(val: string) {
    Reads(val, "true") || Reads(val, "false")
  }

  /** What a request must say of itself and its secret to get as far as the store. */
  predicate Acceptable(req: CreateRequest, s: Secret) {
    && req.volumeID != "" && req.capabilities.Some? && Block !in req.capabilities.value
    && (s.quotaLimit == "" || ParseBool(s.quotaLimit) == Some(false)
        || (ParseBool(s.quotaLimit) == Some(true) && s.resourceConfigApiKey != "" && req.requiredBytes > 0))
    && (s.cosEndpoint != "" || req.params.cosEndpoint != "")
    && (s.locationConstraint != "" || req.params.locationConstraint != "")
    && (s.bucketVersioning != "" ==> ReadsAsBool(s.bucketVersioning))
    && (s.bucketVersioning == "" && req.params.bucketVersioning != "" ==> ReadsAsBool(req.params.bucketVersioning))
    && (s.serviceId != "" || (s.accessKey != "" && s.secretKey != ""))
  }

  /** CreateVolume goes on to the store exactly for acceptable requests, and calls every other one
      invalid. */
  lemma AcceptsExactly(req: CreateRequest)
    ensures Prepare(req).Ok? <==> exists s :: UsesSecret(req, s) && Acceptable(req, s)
    ensures Prepare(req).Err? ==> Prepare(req).code == InvalidArgument
    ensures forall s | UsesSecret(req, s) :: ChosenSecret(req) == Some(s)
  {
    assert ParseBool("") == None;
    if ChosenSecret(req).Some? {
      assert UsesSecret(req, ChosenSecret(req).value);
    }
  }

  /** Where the session of an acceptable request goes, and the mounter that is planned: each is the
      secret's, or else its own parameter. */
  lemma PlacesExactly(req: CreateRequest, s: Secret)
    requires Prepare(req).Ok? && UsesSecret(req, s)
    ensures var plan := Prepare(req).value;
            && CreateSite(plan).endPoint == (if s.cosEndpoint == "" then req.params.cosEndpoint else s.cosEndpoint)
            && CreateSite(plan).location ==
               (if s.locationConstraint == "" then req.params.locationConstraint else s.locationConstraint)
            && plan.params.mounter == (if s.mounter == "" then req.params.mounter else s.mounter)
  {
    AcceptsExactly(req);
  }

  /** The whole context that a successful create records, and where its session went, entry by entry:
      endpoint, location and mounter are the secret's or else each its own parameter; the object path
      is the parameter's, or the secret's where that was found through the PVC; the rest is kept. */
  lemma RecordsExactly(c: Cloud, req: CreateRequest, env: CreateEnv, s: Secret)
    requires CreateVolumeResult(c, req, env).1.Created? && UsesSecret(req, s)
    ensures Prepare(req).Ok?
    ensures var r, site := CreateVolumeResult(c, req, env).1, CreateSite(Prepare(req).value);
            && r.volumeID == req.volumeID
            && r.context.cosEndpoint == site.endPoint == (if s.cosEndpoint == "" then req.params.cosEndpoint else s.cosEndpoint)
            && r.context.locationConstraint == site.location ==
               (if s.locationConstraint == "" then req.params.locationConstraint else s.locationConstraint)
            && r.context.mounter == (if s.mounter == "" then req.params.mounter else s.mounter)
            && r.context.objectPath == (if req.secrets.None? then s.objectPath else req.params.objectPath)
            && r.context.pvcName == req.params.pvcName && r.context.bucketVersioning == req.params.bucketVersioning
            && r.context.bucketName == (if s.bucketName != "" then s.bucketName else env.tempBucketName)
  {
    AcceptsExactly(req);
    PlacesExactly(req, s);
  }

  /** Each answer of DeleteVolume and when it is given. */
  lemma DeleteAnswers(c: Cloud, pvs: PVs, req: DeleteRequest, env: DeleteVolumeEnv)
    ensures var r := DeleteVolumeResult(c, pvs, req, env).1;
            var found := env.pv && req.volumeID in pvs;
            && (r == Err(NotFound) <==> req.volumeID != "" && req.secrets.None? && !found)
            && (r == Ok(()) <==>
                  req.volumeID != "" &&
                  if req.secrets.Some? then ValidCredentials(req.secrets.value)
                  else found && req.pvSecret.Some? && ValidCredentials(req.pvSecret.value))
            && (r.Err? ==> r.code in {NotFound, InvalidArgument})
  {
  }
}
