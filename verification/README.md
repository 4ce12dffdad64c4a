# Verified model of the object storage CSI driver

This project models three parts of the driver that a CSI request passes through, and proves what
they promise to each other.

**Option translation.** StorageClass options and the secret's `mountOptions` lines are parsed,
adjusted and printed; the printed options are lowered once to an s3fs argv that the driver can run
itself, and once to a key/value request from which the mounter service on the worker rebuilds an
argv. `translator.dfy` compares the two argvs. `EndToEnd` says exactly when they mean the same.
`publish_to_argv.dfy` follows a volume from its recorded context to the argv.

**Bucket lifecycle.** CreateVolume obtains a bucket, settles quota and versioning with compensation
on failure, and records who owns the bucket; DeleteVolume acts on that record, NodePublishVolume
mounts what was recorded. Every store call may be answered, rejected, or lost (applied but reported
as failed). `lifecycle.dfy` proves what whole runs do to buckets and to user data.

**Mounting on a node.** FuseMount is a state machine over all interleavings of its three goroutines
and the process (`fuse_mount.dfy`); the bounded waits are loops with exact bounds (`waiting.dfy`);
password and configuration files are followed over runs of mounts and unmounts of all targets
(`credential_dirs.dfy`).

How the source's constructs appear here:

- A Go map whose iteration order is open is walked in an `order`, any listing of its keys once each
  (`LastWins.Enumerates`); theorems hold for every order.
- Calls to the store, to Kubernetes, to the file system and to the process table answer through
  parameters, so a theorem over them covers every answer.
- Methods that change state are proved equal to a function of the old state; the lemmas are about
  those functions.

Findings about the code, each proved:

- The worker refuses every mount request that names `tmpdir` or `use_cache`: the driver knows the
  two options, the service does not decode them (`WorkerAccepts`).
- The worker's copy of an option loses everything from a second `=` on, and empty values
  (`BackEndsAgree`, `EndToEnd`). A comma inside an unknown option splits it (`CommaSplitsAnOption`),
  which can carry in the `cipher_suites=default` that both sides filter. `DefaultCipherExactly` says
  exactly when; `CommaSmugglesDefaultCipher` takes one request all the way to the rebuilt argv.
- One failed bucket check lets CreateVolume take the user's own bucket for one it made; DeleteVolume
  then removes it, or a page of its objects (`OneFailedCheckLosesABucket`). `ClaimsExactly` says when
  a bucket is claimed, `HarmsExactlyTheClaimed` that claiming is the exact condition for losing data.
- Repeating a CreateVolume whose answer was lost forgets that a named bucket is the driver's (exact
  condition `RetryForgetsOwnership`) and makes a second temporary bucket (`RetryMakesASecondBucket`);
  the first bucket then stays through every further run (`LostAnswerLeaks`).
- A CreateVolume whose create answer is lost, or whose second check fails, leaves the new bucket behind
  (exact condition `NotCreatedLeaks`). A PV without the ownership entry has its bucket deleted
  (`OnlyTrueProtects`).
- DeleteVolume reports success while the bucket stays when its last PV lookup or a call of the delete fails,
  or the bucket holds more than one page of objects (exact condition `SilentLeak`).
- DeleteVolume with the create's own secret looks at the create's endpoint and location only if that
  secret names both; what the StorageClass named is not looked up (`DeleteGoesWhereCreateWent`).
- A mount option named `url`, `endpoint` or `passwd_file` beats the driver's own (`ConnectionOptions`);
  `ArgvAgreesExactly` says when s3fs mounts what CreateVolume recorded.
- Two volumes over one new bucket lose its contents with the first
  (`SharedBucketGoesWithItsOwner`; exact condition `DeleteSparesExactly`).
- A NodePublishVolume without secrets writes to a nil map and panics (exact guard
  `PublishPanicsExactly`).
- A password file written over a longer leftover keeps the leftover's tail (`StaleTail`; exact
  condition `PasswordIsExact`).
- Unmounting can choose another mounter than mounting did (`UnmountTakesTheSameMounter`).

## Model

| member | source | states |
|---|---|---|
| GoStrings.SplitJoin | cos-csi-mounter/server/s3fs.go:105-105 | splitting a joined list of separator-free strings gives the list back |
| GoStrings.JoinSplit | pkg/mounter/mounter-s3fs.go:315-315 | joining a split string gives the string back, for every string |
| GoStrings.ReadsAnyCase | pkg/mounter/mounter-s3fs.go:337-340 | a value reads as a word exactly when, spaces around it aside, it is that word in any mixture of cases |
| GoStrings.CarriageReturnIsTrimmed | pkg/mounter/mounter-s3fs.go:249-249 | a secret line that ends in a carriage return is read as the line |
| LastWins.FoldBinds | pkg/mounter/mounter-s3fs.go:271-275 | a name is bound exactly when some setting names it, and to the value of the last one that does |
| MountOptions.OptionMaps.Classify | pkg/mounter/mounter-s3fs.go:247-277 | the loop fills the two maps in place with the known and unknown halves of the last-wins reading |
| MountOptions.ParseSpaced | pkg/mounter/mounter-s3fs.go:248-266 | however it is spaced, an option sets its trimmed name to its trimmed value, or to itself without `=` |
| MountOptions.DroppedExactly | pkg/mounter/mounter-s3fs.go:250-262 | an option is dropped exactly when there is nothing but spaces before its first `=` |
| MountOptions.LayeredClassification | pkg/mounter/mounter-s3fs.go:322-328 | classifying layer after layer equals classifying the concatenation; known and unknown partition the reading, so nothing named is lost |
| MountOptions.SecretOverStorageClass | pkg/mounter/mounter-s3fs.go:322-331 | the secret's lines override the StorageClass options name by name |
| MountOptions.SecretAddsItsLines | pkg/mounter/mounter-s3fs.go:324-327 | a secret written as newline-separated lines adds exactly these lines to the StorageClass options |
| MountOptions.BuildMountOptionsSlice | pkg/mounter/mounter-s3fs.go:279-299 | the two printing loops, for every order of both maps |
| MountOptions.BuildAddMountParam | pkg/mounter/mounter-s3fs.go:301-316 | the unknown options printed and joined, for every order |
| MountOptions.ParsedIsWellFormed | pkg/mounter/mounter-s3fs.go:248-275 | every parsed name is non-empty, trimmed and free of `=`, every value trimmed |
| MountOptions.PrintParseRoundTrip | pkg/mounter/mounter-s3fs.go:247-299 | printing any well-formed map in any order and parsing again gives it back, bare flags, empty values and `=` in values included |
| MountOptions.AdjustOptions | pkg/mounter/mounter-s3fs.go:333-370 | the driver's assignments in order give each option the value its own rule says: pod gid over secret gid over option, uid follows gid, read-only, default cipher dropped |
| MountOptions.RulesByKey | pkg/mounter/mounter-s3fs.go:342-370 | the ordered updates equal the per-option rules |
| MountOptions.FinalExactly | pkg/mounter/mounter-s3fs.go:337-370 | each final option: ro=true exactly for read-only mounts, pod gid over secret gid over parsed gid, cache options the secret's, default cipher gone, all others as parsed |
| MountOptions.FinalUid | pkg/mounter/mounter-s3fs.go:346-360 | the uid is the secret's, else the parsed one, else the final gid |
| MountOptions.UpdateS3FSMountOptions | pkg/mounter/mounter-s3fs.go:318-380 | the whole update: option list and joined unknown options |
| S3fsMounter.S3fsMounter.FormulateMountOptions | pkg/mounter/mounter-s3fs.go:382-438 | the direct argv and the worker's map that one loop builds |
| S3fsMounter.S3fsMounter.MountArguments | pkg/mounter/mounter-s3fs.go:161-171 | the bucket argument, the argv and the worker's map that Mount makes |
| S3fsMounter.BucketArgumentReads | pkg/mounter/mounter-s3fs.go:161-169 | the argument names the bucket up to the first colon and behind it an absolute path, the object path with a slash added only if it had none |
| S3fsMounter.DashOShape | pkg/mounter/mounter-s3fs.go:408-410 | the argv tail is "-o", option pairs and nothing else |
| S3fsMounter.SplitIsTruncatedReading | pkg/mounter/mounter-s3fs.go:412-417 | the worker's map holds the last-wins reading with every value cut at its first `=` |
| S3fsMounter.BackEndsAgree | pkg/mounter/mounter-s3fs.go:382-438 | the last-wins meaning of the direct argv equals the worker's map without add-mount-param if and only if no option that stands has a value with `=` |
| OptionNames.TagsAndKnownOptions | cos-csi-mounter/server/s3fs.go:12-49 | the service's field tags are the driver's known options without tmpdir and use_cache, and add-mount-param |
| MounterServer.DecodeMarshal | cos-csi-mounter/server/utils.go:42-46 | decoding accepts exactly the requests with known field names and keeps all but empty values |
| MounterServer.ParseS3fsArgs | cos-csi-mounter/server/utils.go:67-77 | unknown fields are refused before validation, an argv comes only from a valid request |
| MounterServer.PopulateArgsSlice | cos-csi-mounter/server/s3fs.go:51-115 | the rebuilt argv: bucket and path, then only "-o" pairs, for every order of the map |
| MounterServer.ServerMeaning | cos-csi-mounter/server/s3fs.go:64-114 | in every order the argv means the emitted fields overlaid with the additional parameters |
| MounterServer.OrderIndependence | cos-csi-mounter/server/s3fs.go:83-99 | any two orders give the same options, each as often |
| MounterServer.EachFieldIsPrinted | cos-csi-mounter/server/s3fs.go:64-99 | in every order every field that is not skipped is in the argv, as a bare flag exactly if it reads "true" and is not the IAM endpoint |
| MounterServer.IamFirst | cos-csi-mounter/server/s3fs.go:67-81 | ibm_iam_auth is option 0, ibm_iam_endpoint option 1, and neither comes again from the fields |
| Translator.NewS3fsMounter | pkg/mounter/mounter-s3fs.go:65-124 | the mounter built from secret and options, for every order |
| Translator.WorkerNames | pkg/mounter/mounter-s3fs.go:394-435 | every name the driver sends is a field tag or tmpdir or use_cache; unknown options share no name with a sent entry if and only if none is called add-mount-param, and never any other |
| Translator.WorkerAccepts | cos-csi-mounter/server/utils.go:71-73 | the worker decodes the request if and only if neither secret nor options name tmpdir or use_cache |
| Translator.JoinSplitRoundTrip | cos-csi-mounter/server/s3fs.go:104-112 | comma-free unknown options come back from join, split, trim and re-classification unchanged |
| Translator.EndToEnd | pkg/mounter/mounter-s3fs.go:318-438 | for every request and every iteration order, the worker's argv means the direct argv plus exactly the unknown options if and only if unknown options are comma-free and every direct option has a value, no `=` in a value from the list, and is no default cipher |
| Translator.DefaultCipherExactly | cos-csi-mounter/server/s3fs.go:83-112 | for every request and every iteration order, the rebuilt argv says cipher_suites=default if and only if some unknown option, printed and split on commas, contains that setting |
| Translator.NoDefaultCipher | cos-csi-mounter/server/s3fs.go:88-92 | in particular, with comma-free unknown options no option of the rebuilt argv says it |
| Translator.CommaSplitsAnOption | cos-csi-mounter/server/s3fs.go:105-110 | any unknown option with value "v,name=w" reaches s3fs as two options |
| Translator.SmuggledThrough | pkg/mounter/mounter-s3fs.go:318-438 | every request with one unknown option k=v,cipher_suites=default is accepted by driver and worker, and every argv rebuilt from it says cipher_suites=default |
| Translator.CommaSmugglesDefaultCipher | cos-csi-mounter/server/s3fs.go:88-110 | one such request, with its mounter, decoded arguments and iteration orders, up to the rebuilt argv |
| Translator.MountsBucketAndPath | pkg/mounter/mounter-s3fs.go:88-93 | the bucket argument names the secret's bucket and the secret's object path made absolute |
| Translator.FixedSettings | pkg/mounter/mounter-s3fs.go:383-406 | sigv2, use_path_request_style and allow_other are set and mp_umask is 002 unless a mount option of that name says otherwise |
| Translator.AuthenticatesExactly | pkg/mounter/mounter-s3fs.go:108-114 | for every mounter built from a secret: with an API key, IAM at the secret's endpoint and the key alone in the password file; without one, the private ACL and the secret's HMAC pair; no mount option changes these |
| Translator.PodSettings | pkg/mounter/mounter-s3fs.go:342-356 | a read-only request is mounted ro and the pod's gid is the gid s3fs is told |
| Translator.ConnectionOptions | pkg/mounter/mounter-s3fs.go:382-410 | url, password file and endpoint in the argv are those of a mount option of that name, else the mounter's |
| PublishToArgv.ArgvAgreesExactly | pkg/driver/nodeserver.go:142-172 | for every created volume, publish and mounter built from it: s3fs mounts the recorded bucket at the recorded endpoint and location if and only if the secret names no other bucket and, for the other two, the mount options say the recorded one or say nothing and the secret names no other |
| PublishToArgv.CreateSecretMountsRecorded | pkg/mounter/mounter-s3fs.go:82-93 | in particular with the create's secret and no url or endpoint among the options; the bucket exists |
| PublishToArgv.WorkerMountsRecorded | cos-csi-mounter/server/s3fs.go:64-114 | and the worker's argv says the same endpoint and location where the two argvs mean the same |
| ObjectStorage.COSSession.CreateBucket | pkg/s3client/s3client.go:149-176 | the new store and error for every outcome; a bucket one already owns is no error |
| ObjectStorage.COSSession.DeleteBucket | pkg/s3client/s3client.go:178-208 | the delete loop and bucket delete under any fault |
| ObjectStorage.CreateAnswers | pkg/s3client/s3client.go:149-176 | each answer of CreateBucket exactly, and the store after it: the name is there unless the call was rejected, a taken bucket is as it was, a new one is the caller's and empty |
| ObjectStorage.DeleteReportsExactly | pkg/s3client/s3client.go:178-208 | success exactly for a bucket that was not there and for one that this call removed and heard so; without listing or access nothing is touched |
| ObjectStorage.UnfinishedDelete | pkg/s3client/s3client.go:192-207 | with every object call answered, a bucket that stays has lost exactly the listed objects, and that is an error |
| ObjectStorage.CalmDelete | pkg/s3client/s3client.go:178-208 | a fault-free call takes min(page, n) objects, and the bucket exactly if that was all |
| ObjectStorage.FaultyDelete | pkg/s3client/s3client.go:192-201 | a fault at listed object i leaves exactly the objects before it deleted (and it, if only the answer was lost) |
| ObjectStorage.DeleteRemovesExactly | pkg/s3client/s3client.go:178-208 | under any faults a call removes the bucket if and only if it can be reached, list and object calls are answered, the page holds all objects and the last call takes effect |
| ObjectStorage.DeleteConverges | pkg/s3client/s3client.go:178-208 | after k fault-free calls exactly min(k times page, n) objects are gone, the rest are as they were, and nothing else of the store has changed |
| ObjectStorage.GoneAfterExactly | pkg/s3client/s3client.go:178-208 | the bucket is gone exactly from call max(1, ceil(n / page)) on |
| Controller.ParseBoolExactly | pkg/driver/controllerserver.go:143-150 | the quota switch is on exactly for 1, t and true, off exactly for 0, f and false, in lower case, upper case or capitalised |
| Controller.AcceptsExactly | pkg/driver/controllerserver.go:67-220 | CreateVolume goes on to the store exactly for requests that are acceptable with the secret they use, and calls every other one invalid |
| Controller.PlacesExactly | pkg/driver/controllerserver.go:166-188 | endpoint, location and mounter are the secret's or else each its own parameter |
| Controller.RecordsExactly | pkg/driver/controllerserver.go:166-334 | the whole recorded context, entry by entry, from the request and the secret it uses |
| Controller.PlanFollowsSecret | pkg/driver/controllerserver.go:143-216 | what a request that passes the checks asks for, secret before StorageClass |
| Controller.ContextRecordsSecret | pkg/driver/controllerserver.go:166-180 | the recorded endpoint, location and bucket are the secret's wherever it names them |
| Controller.ControllerServer.CreateBucketFor | pkg/driver/controllerserver.go:644-663 | create, tolerate a name clash, check access |
| Controller.ControllerServer.CreateVolume | pkg/driver/controllerserver.go:225-334 | the saga with compensation, under any fault |
| Controller.ControllerServer.OpenSession | pkg/driver/controllerserver.go:344-395 | which secret, endpoint and location the delete session has, or which error there is |
| Controller.ControllerServer.DeleteVolume | pkg/driver/controllerserver.go:336-411 | the delete that acts on the recorded ownership |
| Controller.DeleteAnswers | pkg/driver/controllerserver.go:344-410 | each answer of DeleteVolume and exactly when it is given |
| Controller.DeleteGoesWhereCreateWent | pkg/driver/controllerserver.go:348-376 | the delete session goes to the recorded endpoint and location always with the PV's secret, and with the create's secret in the request if and only if that secret names both |
| Lifecycle.ClaimsExactly | pkg/driver/controllerserver.go:226-238 | CreateVolume takes an existing bucket for its own if and only if the first check fails on a reachable bucket (or a temporary name is not fresh), the create answers with a tolerated clash and the second check is answered |
| Lifecycle.ClaimsEndanger | pkg/driver/controllerserver.go:248-271 | a claimed bucket is recorded for deletion, or the failed call handed it to the compensating delete |
| Lifecycle.SettleExactly | pkg/driver/controllerserver.go:240-273 | settling touches quota and versioning of its bucket only; a failure is exactly the compensation of that |
| Lifecycle.FailureIsContained | pkg/driver/controllerserver.go:240-318 | on any error other buckets are untouched and no content is lost; a successful rollback restores the store exactly |
| Lifecycle.SuccessIsRecorded | pkg/driver/controllerserver.go:275-322 | on success the bucket is recorded as the driver's if and only if it was not there before |
| Lifecycle.SuccessSettles | pkg/driver/controllerserver.go:240-273 | a created volume's bucket has the quota and versioning asked for, and keeps what was not asked for |
| Lifecycle.CreatedIsReachable | pkg/driver/controllerserver.go:225-322 | the recorded context names the bucket worked on, which the account can reach, and records it as the user's exactly when the first check saw it |
| Lifecycle.CreateAnswersExactly | pkg/driver/controllerserver.go:225-334 | each answer of CreateVolume, its code and its stage, exactly when it is given |
| Lifecycle.SharedWith | pkg/driver/controllerserver.go:226-238 | over an existing named bucket a calm create succeeds exactly for the owner and the accounts it is shared with, and is recorded as the user's; for others it fails and changes nothing |
| Lifecycle.NotCreatedLeaks | pkg/driver/controllerserver.go:644-663 | a create that does not get its new bucket leaves it behind unless the create call was rejected |
| Lifecycle.QuotaComesFirst | pkg/driver/controllerserver.go:240-271 | a failed quota stops the call before versioning is touched |
| Lifecycle.RollbackRestores | pkg/driver/controllerserver.go:248-271 | whenever quota or versioning fails on a bucket the call has made and the delete is answered, the store is what it was |
| Lifecycle.CalmCreateSucceeds | pkg/driver/controllerserver.go:225-322 | a well-formed request whose calls are all answered succeeds if its bucket is absent or reachable |
| Lifecycle.UserDataIsSafe | pkg/driver/controllerserver.go:397-408 | over every run with any failures, a protected bucket stays, with its owner, and holds exactly what its users last wrote, if no create claims an existing bucket |
| Lifecycle.TruthfulClaimsNothing | pkg/driver/controllerserver.go:230-230 | an answered first check and fresh temporary names are enough for that |
| Lifecycle.InitialBucketsSurvive | pkg/utils/driver_utils.go:101-107 | from an empty PV table every bucket of the initial store survives every truthful run with its owner, its guests and the contents its users last wrote; its quota and versioning may be set |
| Lifecycle.DeleteActsWhenReached | pkg/driver/controllerserver.go:344-410 | DeleteVolume touches the store exactly when the volume is on record, both lookups answer and the request's secret, or else the PV's, holds credentials; for a recorded volume it reports success exactly when there are credentials |
| Lifecycle.DeleteSparesExactly | pkg/driver/controllerserver.go:397-410 | a calm delete leaves a bucket and its objects as they are if and only if it is not recorded as the volume's own |
| Lifecycle.OnlyTrueProtects | pkg/utils/driver_utils.go:101-107 | a delete that can remove the named bucket does so exactly when the context does not say userProvidedBucket=true |
| Lifecycle.ClaimedBucketIsDeleted | pkg/driver/controllerserver.go:230-236 | after any claim whose create succeeds, in whichever way and whatever else failed, a calm delete of the volume takes the bucket or a page of its objects |
| Lifecycle.HarmsExactlyTheClaimed | pkg/driver/controllerserver.go:225-410 | create in any world with any faults, then delete calmly: a bucket that was there keeps its objects if and only if the create did not claim it |
| Lifecycle.OneFailedCheckLosesABucket | pkg/driver/controllerserver.go:230-236 | one unanswered first check, the rest answered: the user's bucket is recorded, then removed or emptied by a page |
| Lifecycle.CreateThenDelete | pkg/driver/controllerserver.go:397-410 | any create that made its bucket and succeeded, any contents of at most a page, a calm delete: the store is what it was |
| Lifecycle.DeletedStaysDeleted | pkg/driver/controllerserver.go:397-410 | any number of further deletes of that volume, failing in any way, changes nothing |
| Lifecycle.SilentLeak | pkg/driver/controllerserver.go:397-410 | for every outcome of every call: DeleteVolume reports success and leaves the recorded bucket exactly when there are credentials and then the second lookup or a call of the delete fails, or a page does not hold all objects |
| Lifecycle.CalmSilentLeak | pkg/driver/controllerserver.go:402-410 | with every call answered, exactly when the bucket holds more than a page |
| Lifecycle.LostAnswerLeaks | pkg/driver/controllerserver.go:275-322 | a bucket made by a create whose answer is lost stays through every further run in which no create claims an existing bucket |
| Lifecycle.RetryForgetsOwnership | pkg/driver/controllerserver.go:225-238 | a create of a named bucket and its repetition answer the same if and only if both first checks see the bucket or neither does; the repetition records it as the user's exactly when its first check is answered |
| Lifecycle.RetryMakesASecondBucket | pkg/driver/controllerserver.go:276-321 | without a named bucket a create and its repetition answer the same if and only if they make up the same name; both buckets are then there and only the repetition's is recorded, as the driver's |
| Lifecycle.SharedBucketGoesWithItsOwner | pkg/driver/controllerserver.go:230-238 | deleting the volume that made a shared bucket takes what the other volume's users wrote, all of it or a page |
| NodePublish.NodeServer.NodePublishVolume | pkg/driver/nodeserver.go:78-172 | how the secret map is completed, refused, or not there at all |
| NodePublish.PublishPanicsExactly | pkg/driver/nodeserver.go:135-172 | publish panics exactly when a well-formed request for a usable target has no secrets, and mounts exactly when endpoint and bucket are known |
| NodePublish.PublishedSecretExactly | pkg/driver/nodeserver.go:142-172 | the four completed entries are the secret's or else the PV's, the context's and the node's; all others are untouched |
| NodePublish.RCloneExactly | pkg/mounter/mounter.go:76-119 | the mounter is rclone exactly when the context says so, or says nothing and the secret does |
| NodePublish.PublishAgreesExactly | pkg/driver/nodeserver.go:142-172 | a created volume is mounted from its record if and only if the secret names no other bucket, endpoint or location |
| NodePublish.PublishAgreesWithCreate | pkg/driver/nodeserver.go:142-172 | with the secret of the create, the mounted bucket, endpoint and location are the recorded ones and the bucket exists |
| NodePublish.UnmountTakesTheSameMounter | pkg/driver/nodeserver.go:212-219 | unmount picks the mounter that mounted if and only if the context names one or the secret does not name rclone |
| Waiting.LastCheck | pkg/mounter/utils/mounter_utils.go:193-197 | the sleeps reach the timeout exactly after max(1, ceil(timeout / interval)) looks |
| Waiting.WaitForMount | pkg/mounter/utils/mounter_utils.go:173-201 | how often it looks, how long it sleeps, and exactly what each answer means |
| Waiting.WaitForFuseMount | pkg/mounter/utils/mounter_utils.go:66-66 | with the driver's 30 s and 500 ms: at most 60 looks, a timeout exactly when none of the 60 turns is cancelled or sees the mount |
| Waiting.WaitForProcess | pkg/mounter/utils/mounter_utils.go:231-255 | times out exactly when every probe up to backoff 119 finds the process alive |
| Waiting.FuseUnmount | pkg/mounter/utils/mounter_utils.go:99-146 | three escalating attempts; a process is killed exactly when found alive at all 119 probes |
| FuseMount.StepKeepsInv | pkg/mounter/utils/mounter_utils.go:55-96 | every step of every goroutine keeps the channel, soundness and bound invariants |
| FuseMount.MountIsSound | pkg/mounter/utils/mounter_utils.go:39-96 | under every interleaving nil means an observed mount and no cancellation ever, an error means cancellation and one of three causes |
| FuseMount.FallbackDecides | pkg/mounter/utils/mounter_utils.go:72-84 | after a failed process FuseMount returns nil exactly when its last look sees the mount |
| FuseMount.PollerDecides | pkg/mounter/utils/mounter_utils.go:85-96 | where the poller's answer is taken, nil exactly when the poller saw the mount |
| FuseMount.NilExactly | pkg/mounter/utils/mounter_utils.go:39-96 | over all interleavings, nil if and only if the last look saw the mount or the answer of a poller that did was taken |
| FuseMount.SendsNeverBlock | pkg/mounter/utils/mounter_utils.go:55-68 | no goroutine is ever blocked on a send |
| FuseMount.EveryStepDecreases | pkg/mounter/utils/mounter_utils.go:70-92 | every step decreases one measure |
| FuseMount.RunsAreBounded | pkg/mounter/utils/mounter_utils.go:173-201 | a run has at most three steps a look and eight more |
| FuseMount.DriverRunsAreBounded | pkg/mounter/utils/mounter_utils.go:66-66 | with the driver's own settings no run has more than 188 steps |
| FuseMount.NeverStuck | pkg/mounter/utils/mounter_utils.go:70-96 | until main and poller are done one of them can move, whatever the process does |
| FuseMount.OrphanStopsSoon | pkg/mounter/utils/mounter_utils.go:179-185 | a poller left behind by a failure makes at most the look it had begun |
| CredentialDirs.ConfigDirs.WritePassFile | pkg/mounter/mounter.go:152-166 | the file is overwritten from its start and not truncated |
| CredentialDirs.ConfigDirs.Mount | pkg/mounter/mounter-s3fs.go:141-196 | directory, password file, request, with any call failing |
| CredentialDirs.ConfigDirs.MountConfig | pkg/mounter/mounter-rclone.go:324-362 | directory, truncated configuration, request |
| CredentialDirs.ConfigDirs.RemoveDir | pkg/mounter/mounter-s3fs.go:440-464 | the retry loop of the cleanup |
| CredentialDirs.ConfigDirs.UnmountTarget | pkg/mounter/mounter-s3fs.go:198-225 | a failed unmount cleans nothing up |
| CredentialDirs.S3fsReportsExactly | pkg/mounter/mounter-s3fs.go:141-196 | success exactly when all keys were written, the file closed and the request worked; the directory is there exactly once it could be made |
| CredentialDirs.RcloneReportsExactly | pkg/mounter/mounter-rclone.go:324-362 | success exactly when the whole configuration was written and the request worked; the file holds what went out |
| CredentialDirs.UnmountReportsExactly | pkg/mounter/mounter-s3fs.go:198-225 | Unmount reports what the request answers; a failed one touches nothing, one that works removes exactly the target's directory, if an attempt works |
| CredentialDirs.CleanUpRemoves | pkg/mounter/mounter-rclone.go:400-424 | the directory is gone exactly if it was not there or one of three attempts works; no other directory is touched |
| CredentialDirs.StepStaysHome | pkg/mounter/mounter-s3fs.go:141-141 | no step touches another target's directory |
| CredentialDirs.LayeredAt | pkg/mounter/mounter.go:152-157 | character i of an overwritten file comes from the last write longer than i |
| CredentialDirs.PassFileIsLayered | pkg/mounter/mounter-s3fs.go:156-160 | over every run a password file holds exactly the writes since its last removal, layered |
| CredentialDirs.PasswordIsExact | pkg/mounter/mounter-s3fs.go:156-160 | after a complete write the file equals the keys if and only if no leftover write is longer |
| CredentialDirs.CleanBeforeMount | pkg/mounter/mounter-s3fs.go:440-464 | if between any two s3fs mounts of one target lies an unmount with a completed cleanup, every mount finds its target without a password file |
| CredentialDirs.CredentialsAreExact | pkg/mounter/mounter-s3fs.go:202-224 | under that protocol, in every run with any failures, every mounted target's file equals the keys of its mount until an unmount of it works, failed unmounts and rclone mounts of the same directory included |
| CredentialDirs.ReportedMountsAreExact | pkg/mounter/mounter-s3fs.go:156-224 | the same for every mount that reported success |
| CredentialDirs.StaleTail | pkg/mounter/mounter-s3fs.go:187-191 | a refused mount, then one with shorter keys: the file ends in the old keys |
| CredentialDirs.ConfigIsExact | pkg/mounter/mounter-rclone.go:330-360 | rclone's configuration is exact after every complete write |

## Left out

- gRPC, HTTP and socket plumbing, signal handling, logging, metrics, unimplemented RPCs and capability lists.
- Kubernetes, COS and IAM calls are answers passed in as parameters; the account behind a session's credentials is one of them.
- ObjectStorage.COSSession: a session keeps its endpoint and location, but what a call to another endpoint would meet is left to its outcome.
- MounterServer.DecodeMarshal: Go's decoder also accepts a field name in other letter case; the driver sends only exact names.
- MounterServer.ParseS3fsArgs: Validate's field checks are one answer `valid`, and the rclone branch and the refusal of other mounter names are not modelled.
- GoStrings.ToLower lowers ASCII letters only, which decides every comparison the driver makes with it.
- Controller.ControllerServer.CreateVolume: the checks before the store is touched (controllerserver.go:57-223) are one function on values, `Prepare`; the volume ID is taken after sanitizing, and parameters the driver neither reads nor writes are not carried.
- A key that is missing from a secret or a volume context reads as ""; only NewMounter, where the code tells them apart, is given the difference.
- Waiting.WaitForProcess: from a backoff past 120, which no caller passes, the recursion has no bound.
- Object versions and delete markers, and the timestamp in temporary bucket names, which appears as a name passed in.
- Translator.EndToEnd compares meanings, the last value of each name; s3fs's own treatment of single options is not part of this model.
- rclone's options, configuration text and argv: a simpler copy of the s3fs translation. Only its directory lifecycle is modelled.
- The hash in a directory name is taken to be injective.
