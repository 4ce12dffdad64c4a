/** From the volume context that CreateVolume recorded to the s3fs argv of the mount. */
module PublishToArgv {
  import opened Wrappers
  import opened LastWins
  import opened MountOptions
  import opened S3fsMounter
  import opened MounterServer
  import opened OptionNames
  import opened Translator
  import opened ObjectStorage
  import opened Controller
  import opened NodePublish

  /** The secret map a mounter is built from holds what NodePublishVolume completed. */
  predicate HandedOver(m: Bindings, s: Secret) {
    && Get(m, "bucketName") == s.bucketName && Get(m, "objectPath") == s.objectPath
    && Get(m, "cosEndpoint") == s.cosEndpoint && Get(m, "locationConstraint") == s.locationConstraint
    && Get(m, "accessKey") == s.accessKey && Get(m, "secretKey") == s.secretKey && Get(m, "apiKey") == s.apiKey
    && Get(m, "iamEndpoint") == s.iamEndpoint && Get(m, "kpRootKeyCRN") == s.kpRootKeyCRN
  }

  /** s3fs is told to mount the recorded bucket at the recorded endpoint and location. */
  predicate ArgvMountsRecorded(bucketName: string, said: Bindings, context: Params) {
    && bucketName == context.bucketName
    && Lookup(said, URL) == Some(context.cosEndpoint)
    && Lookup(said, ENDPOINT) == Some(context.locationConstraint)
  }

  /** An option, if there is one, says what was recorded; else the secret says nothing else. */
  predicate Settles(option: Option<string>, secret: string, recorded: string) {
    if option.Some? then option.value == recorded else secret in {"", recorded}
  }

  /** The whole way, for every create that succeeded, every publish of its volume and every mounter
      built from it. s3fs mounts what was recorded if and only if the publish secret names no other
      bucket, and for endpoint and location the mount options say the recorded one, or say nothing
      and the secret names no other. */
  lemma ArgvAgreesExactly(c: Cloud, create: CreateRequest, env: CreateEnv,
                          pvs: PVs, iamEndpoint: string, req: PublishRequest,
                          r: Request, s: S3fsMounter, order: seq<string>, unknownOrder: seq<string>, passwdFile: string)
    requires CreateVolumeResult(c, create, env).1 == Created(req.volumeID, req.attrib)
    requires req.volumeID in pvs && pvs[req.volumeID] == req.attrib
    requires req.targetPath != "" && req.hasCapability && req.secrets.Some?
    requires Published(pvs, iamEndpoint, req, true, true).Mounting? ==>
               HandedOver(r.secret, Published(pvs, iamEndpoint, req, true, true).secretMap)
    requires Built(s, r, order, unknownOrder) && s == MounterFor(r.secret, s.mountOptions, s.addMountParam)
    ensures Published(pvs, iamEndpoint, req, true, true).Mounting?
    ensures var secret, context := req.secrets.value, req.attrib;
            ArgvMountsRecorded(s.bucketName, Meaning(DirectOptions(s, passwdFile)), context) <==>
            && secret.bucketName in {"", context.bucketName}
            && Settles(Given(r, URL), secret.cosEndpoint, context.cosEndpoint)
            && Settles(Given(r, ENDPOINT), secret.locationConstraint, context.locationConstraint)
  {
    PublishedFields(c, create, env, pvs, iamEndpoint, req);
    ConnectionOptions(s, r, order, unknownOrder, passwdFile);
  }

  lemma PublishedFields(c: Cloud, create: CreateRequest, env: CreateEnv,
                        pvs: PVs, iamEndpoint: string, req: PublishRequest)
    requires CreateVolumeResult(c, create, env).1 == Created(req.volumeID, req.attrib)
    requires req.volumeID in pvs && pvs[req.volumeID] == req.attrib
    requires req.targetPath != "" && req.hasCapability && req.secrets.Some?
    ensures req.attrib.cosEndpoint != "" && req.attrib.locationConstraint != "" && req.attrib.bucketName != ""
    ensures var r, s, context := Published(pvs, iamEndpoint, req, true, true), req.secrets.value, req.attrib;
            && r.Mounting?
            && r.secretMap.bucketName == FirstNonEmpty(s.bucketName, context.bucketName)
            && r.secretMap.cosEndpoint == FirstNonEmpty(s.cosEndpoint, context.cosEndpoint)
            && r.secretMap.locationConstraint == FirstNonEmpty(s.locationConstraint, context.locationConstraint)
  {
    ContextRecordsSecret(c, create, env);
  }

  /** With the secret of the create and no url or endpoint among the mount options, that holds. */
  lemma CreateSecretMountsRecorded(c: Cloud, create: CreateRequest, env: CreateEnv,
                                   pvs: PVs, iamEndpoint: string, req: PublishRequest,
                                   r: Request, s: S3fsMounter, order: seq<string>, unknownOrder: seq<string>,
                                   passwdFile: string)
    requires CreateVolumeResult(c, create, env).1 == Created(req.volumeID, req.attrib)
    requires req.volumeID in pvs && pvs[req.volumeID] == req.attrib
    requires req.targetPath != "" && req.hasCapability && req.secrets.Some? && req.secrets == ChosenSecret(create)
    requires Published(pvs, iamEndpoint, req, true, true).Mounting? ==>
               HandedOver(r.secret, Published(pvs, iamEndpoint, req, true, true).secretMap)
    requires Built(s, r, order, unknownOrder) && s == MounterFor(r.secret, s.mountOptions, s.addMountParam)
    requires URL !in r.Known() && ENDPOINT !in r.Known()
    ensures ArgvMountsRecorded(s.bucketName, Meaning(DirectOptions(s, passwdFile)), req.attrib)
    ensures s.bucketName in CreateVolumeResult(c, create, env).0
  {
    ContextRecordsSecret(c, create, env);
    ArgvAgreesExactly(c, create, env, pvs, iamEndpoint, req, r, s, order, unknownOrder, passwdFile);
    PublishAgreesWithCreate(c, create, env, pvs, iamEndpoint, req);
  }

  /** The same through the worker, where the two argvs mean the same. */
  lemma WorkerMountsRecorded(r: Request, s: S3fsMounter, order: seq<string>, unknownOrder: seq<string>, passwdFile: string,
                             args: S3FSArgs, serverOrder: seq<string>, context: Params)
    requires Built(s, r, order, unknownOrder)
    requires StrictDecode(WorkerMap(s, passwdFile), S3FS_TAGS) == Args(args)
    requires Enumerates(serverOrder, Marshal(args).Keys - {IAM_AUTH, IAM_ENDPOINT})
    requires var direct := Meaning(DirectOptions(s, passwdFile));
             && ArgvMountsRecorded(s.bucketName, direct, context)
             && CommaFree(r.Unknown()) && forall k | k in direct :: Carried(k, direct[k], FromOptions(s, k))
    ensures var said := NormMeaning(ServerOptions(args, serverOrder));
            && Lookup(said, URL) == Some(Norm(context.cosEndpoint))
            && Lookup(said, ENDPOINT) == Some(Norm(context.locationConstraint))
  {
    DriverNamesAreKnown();
    WorkerSaysDirect(s, r, order, unknownOrder, passwdFile, args, serverOrder, URL);
    WorkerSaysDirect(s, r, order, unknownOrder, passwdFile, args, serverOrder, ENDPOINT);
  }
}
