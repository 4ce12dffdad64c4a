/** NodePublishVolume: which bucket, endpoint and mounter a volume is mounted with
    (pkg/driver/nodeserver.go, pkg/mounter/mounter.go). */
module NodePublish {
  import opened ObjectStorage
  import opened Controller
  import opened Lifecycle
  import opened Wrappers

  /** `secrets` is None for the nil map that an empty secrets field decodes to. */
  datatype PublishRequest = PublishRequest(
    volumeID: string, targetPath: string, hasCapability: bool, attrib: Params, secrets: Option<Secret>)

  datatype PublishResult = Mounting(secretMap: Secret) | NotPublished(code: Code) | Panicked

  datatype MounterKind = S3FS | RClone

  /** NewMounter's choice; a key that is absent is None. */
  function NewMounter(attrib: Option<string>, secret: Option<string>): MounterKind {
    var mounter := if attrib.Some? then attrib.value else if secret.Some? then secret.value else "";
    if mounter == "rclone" then RClone else S3FS
  }

  class NodeServer {
    const pvs: PVs
    const iamEndpoint: string

    constructor (pvs: PVs, iamEndpoint: string)
      ensures this.pvs == pvs && this.iamEndpoint == iamEndpoint
    {
      this.pvs, this.iamEndpoint := pvs, iamEndpoint;
    }

    /** NodePublishVolume up to the mount, which is handed the completed secret map. `mountPoint`
        and `pv` tell whether the target check and the PV lookup are answered. */
    method NodePublishVolume(req: PublishRequest, mountPoint: bool, pv: bool) returns (r: PublishResult)
      ensures r == Published(pvs, iamEndpoint, req, mountPoint, pv)
    {
      if req.volumeID == "" || req.targetPath == "" || !req.hasCapability {
        return NotPublished(InvalidArgument);
      }
      if !mountPoint {
        return NotPublished(Internal);
      }
      if req.secrets.None? {
        // the first write to the map
        return Panicked;
      }
      var secretMap := req.secrets.value;
      if secretMap.cosEndpoint == "" {
        secretMap := secretMap.(cosEndpoint := req.attrib.cosEndpoint);
      }
      if secretMap.locationConstraint == "" {
        secretMap := secretMap.(locationConstraint := req.attrib.locationConstraint);
      }
      if secretMap.cosEndpoint == "" {
        return NotPublished(InvalidArgument);
      }
      if secretMap.iamEndpoint == "" {
        secretMap := secretMap.(iamEndpoint := iamEndpoint);
      }
      if secretMap.bucketName == "" {
        if !(pv && req.volumeID in pvs) {
          return NotPublished(Internal);
        }
        var tempBucketName := pvs[req.volumeID].bucketName;
        if tempBucketName == "" {
          return NotPublished(Internal);
        }
        secretMap := secretMap.(bucketName := tempBucketName);
      }
      return Mounting(secretMap);
    }
  }

  /** The secret wins; what it leaves open comes from the volume context, or for the bucket from
      the PV. */
  function Published(pvs: PVs, iamEndpoint: string, req: PublishRequest, mountPoint: bool, pv: bool): PublishResult {
    if req.volumeID == "" || req.targetPath == "" || !req.hasCapability then NotPublished(InvalidArgument)
    else if !mountPoint then NotPublished(Internal)
    else if req.secrets.None? then Panicked
    else
      var s := req.secrets.value;
      var endPoint := FirstNonEmpty(s.cosEndpoint, req.attrib.cosEndpoint);
      var recorded := if pv && req.volumeID in pvs then pvs[req.volumeID].bucketName else "";
      var bucket := FirstNonEmpty(s.bucketName, recorded);
      if endPoint == "" then NotPublished(InvalidArgument)
      else if bucket == "" then NotPublished(Internal)
      else
        Mounting(s.(cosEndpoint := endPoint,
                    locationConstraint := FirstNonEmpty(s.locationConstraint, req.attrib.locationConstraint),
                    iamEndpoint := FirstNonEmpty(s.iamEndpoint, iamEndpoint),
                    bucketName := bucket))
  }

  predicate EndpointKnown(req: PublishRequest)
    requires req.secrets.Some?
  {
    req.secrets.value.cosEndpoint != "" || req.attrib.cosEndpoint != ""
  }

  predicate BucketKnown(pvs: PVs, req: PublishRequest, pv: bool)
    requires req.secrets.Some?
  {
    req.secrets.value.bucketName != "" || (pv && req.volumeID in pvs && pvs[req.volumeID].bucketName != "")
  }

  /** The call dies on a write to a nil map exactly when a well-formed request for a usable target
      comes without secrets; with secrets it never does, and then it mounts exactly when endpoint and
      bucket are known from the secret, the volume context or the PV. */
  lemma PublishPanicsExactly(pvs: PVs, iamEndpoint: string, req: PublishRequest, mountPoint: bool, pv: bool)
    ensures var r := Published(pvs, iamEndpoint, req, mountPoint, pv);
            var passes := req.volumeID != "" && req.targetPath != "" && req.hasCapability && mountPoint;
            && (r.Panicked? <==> passes && req.secrets.None?)
            && (r.Mounting? <==> passes && req.secrets.Some? && EndpointKnown(req) && BucketKnown(pvs, req, pv))
            && (r == NotPublished(Internal) <==>
                  req.volumeID != "" && req.targetPath != "" && req.hasCapability &&
                  (!mountPoint || (req.secrets.Some? && EndpointKnown(req) && !BucketKnown(pvs, req, pv))))
            && (r.NotPublished? ==> r.code in {InvalidArgument, Internal})
  {
  }

  /** What the mounter is handed: bucket, endpoint, location and IAM endpoint are the secret's, or else
      those of the PV, the volume context and the node; everything else is the secret's untouched. */
  lemma PublishedSecretExactly(pvs: PVs, iamEndpoint: string, req: PublishRequest, mountPoint: bool, pv: bool)
    requires Published(pvs, iamEndpoint, req, mountPoint, pv).Mounting?
    ensures req.secrets.Some? && (req.secrets.value.bucketName == "" ==> req.volumeID in pvs)
    ensures var s, m := req.secrets.value, Published(pvs, iamEndpoint, req, mountPoint, pv).secretMap;
            && m.bucketName == (if s.bucketName == "" then pvs[req.volumeID].bucketName else s.bucketName)
            && m.cosEndpoint == (if s.cosEndpoint == "" then req.attrib.cosEndpoint else s.cosEndpoint)
            && m.locationConstraint ==
               (if s.locationConstraint == "" then req.attrib.locationConstraint else s.locationConstraint)
            && m.iamEndpoint == (if s.iamEndpoint == "" then iamEndpoint else s.iamEndpoint)
            && (m.accessKey, m.secretKey, m.apiKey, m.serviceId, m.objectPath, m.mounter, m.kpRootKeyCRN) ==
               (s.accessKey, s.secretKey, s.apiKey, s.serviceId, s.objectPath, s.mounter, s.kpRootKeyCRN)
  {
  }

  /** The mounter is rclone exactly when the volume context says rclone, or says nothing and the secret
      does. */
  lemma RCloneExactly(attrib: Option<string>, secret: Option<string>)
    ensures NewMounter(attrib, secret) == RClone <==>
            attrib == Some("rclone") || (attrib.None? && secret == Some("rclone"))
  {
    assert "" != "rclone";
  }

  /** The mount is of the recorded bucket, at the recorded endpoint and location. */
  predicate MountsRecorded(r: PublishResult, context: Params) {
    && r.Mounting?
    && r.secretMap.bucketName == context.bucketName
    && r.secretMap.cosEndpoint == context.cosEndpoint
    && r.secretMap.locationConstraint == context.locationConstraint
  }

  /** The secret says nothing else than the recorded context. */
  predicate Compatible(s: Secret, context: Params) {
    && s.bucketName in {"", context.bucketName}
    && s.cosEndpoint in {"", context.cosEndpoint}
    && s.locationConstraint in {"", context.locationConstraint}
  }

  /** A created volume is mounted from what was recorded for it exactly when the secret seen at
      publish names no other bucket, endpoint or location. */
  lemma PublishAgreesExactly(c: Cloud, create: CreateRequest, env: CreateEnv,
                             pvs: PVs, iamEndpoint: string, req: PublishRequest)
    requires CreateVolumeResult(c, create, env).1 == Created(req.volumeID, req.attrib)
    requires req.volumeID in pvs && pvs[req.volumeID] == req.attrib
    requires req.targetPath != "" && req.hasCapability && req.secrets.Some?
    ensures MountsRecorded(Published(pvs, iamEndpoint, req, true, true), req.attrib) <==>
            Compatible(req.secrets.value, req.attrib)
  {
    ContextRecordsSecret(c, create, env);
    assert create.volumeID != "";
  }

  /** In particular when publish sees the secret that create saw, on the named-bucket and the
      temporary-bucket path. The bucket mounted is then one that the create left in the store. */
  lemma PublishAgreesWithCreate(c: Cloud, create: CreateRequest, env: CreateEnv,
                                pvs: PVs, iamEndpoint: string, req: PublishRequest)
    requires CreateVolumeResult(c, create, env).1 == Created(req.volumeID, req.attrib)
    requires req.volumeID in pvs && pvs[req.volumeID] == req.attrib
    requires req.targetPath != "" && req.hasCapability && req.secrets.Some?
    requires ChosenSecret(create).Some? ==>
               var s := ChosenSecret(create).value;
               && req.secrets.value.bucketName == s.bucketName
               && req.secrets.value.cosEndpoint == s.cosEndpoint
               && req.secrets.value.locationConstraint == s.locationConstraint
    ensures MountsRecorded(Published(pvs, iamEndpoint, req, true, true), req.attrib)
    ensures Published(pvs, iamEndpoint, req, true, true).secretMap.bucketName in CreateVolumeResult(c, create, env).0
  {
    ContextRecordsSecret(c, create, env);
    PublishAgreesExactly(c, create, env, pvs, iamEndpoint, req);
    CreatedIsReachable(c, create, env);
  }

  /** NodeUnpublishVolume chooses the mounter without the secret. It takes the one that mounted
      exactly when the volume context names one, or the secret does not ask for rclone. */
  lemma UnmountTakesTheSameMounter(attrib: Option<string>, secret: Option<string>)
    ensures NewMounter(attrib, secret) == NewMounter(attrib, None) <==> attrib.Some? || secret != Some("rclone")
  {
    assert "" != "rclone";
  }
}
