/** From StorageClass options and secret lines to the s3fs argv, along both ways: the argv the
    driver would run itself, and the argv the worker's service rebuilds from the request. */
module Translator {
  import opened GoStrings
  import opened LastWins
  import opened MountOptions
  import opened S3fsMounter
  import opened MounterServer
  import opened OptionNames
  import opened Wrappers

  datatype Request = Request(scOptions: seq<string>, secret: Bindings, gid: string, readOnly: bool, tlsCipher: string) {
    function Known(): Bindings {
      FinalOptions(scOptions, secret, KNOWN_S3FS_OPTIONS, gid, readOnly)
    }

    function Unknown(): Bindings {
      UnknownOptions(scOptions, secret, KNOWN_S3FS_OPTIONS)
    }

    /** The one default NodePublishVolume passes. */
    function Defaults(): Bindings {
      map[CIPHER_SUITES := tlsCipher]
    }
  }

  /** options and param are what updateS3FSMountOptions makes of r, for some iteration orders. */
  ghost predicate BuiltFrom(options: seq<string>, param: string, r: Request, order: seq<string>, unknownOrder: seq<string>) {
    && Enumerates(order, r.Known().Keys)
    && Enumerates(unknownOrder, r.Unknown().Keys)
    && (forall k | k in order :: k in r.Known())
    && (forall k | k in unknownOrder :: k in r.Unknown())
    && options == OptionsSlice(r.Known(), order, r.Defaults(), [CIPHER_SUITES])
    && param == Join(PrintAll(Listing(unknownOrder, r.Unknown())), ',')
  }

  ghost predicate Built(s: S3fsMounter, r: Request, order: seq<string>, unknownOrder: seq<string>) {
    BuiltFrom(s.mountOptions, s.addMountParam, r, order, unknownOrder)
  }

  /** The options part of NewS3fsMounter. */
  method BuildOptions(r: Request, order: seq<string>, unknownOrder: seq<string>)
    returns (options: seq<string>, param: string)
    requires Enumerates(order, r.Known().Keys) && Enumerates(unknownOrder, r.Unknown().Keys)
    ensures BuiltFrom(options, param, r, order, unknownOrder)
  {
    OneDefault(r);
    options, param := UpdateS3FSMountOptions(r.scOptions, r.secret, KNOWN_S3FS_OPTIONS, r.Defaults(), r.gid, r.readOnly,
                                             order, [CIPHER_SUITES], unknownOrder);
  }

  lemma OneDefault(r: Request)
    ensures Enumerates([CIPHER_SUITES], r.Defaults().Keys)
  {
    assert r.Defaults().Keys == {CIPHER_SUITES};
  }

  /** The connection part: an API key selects IAM and stands alone behind the colon. */
  function MounterFor(secret: Bindings, options: seq<string>, param: string): S3fsMounter {
    var apiKey := Get(secret, "apiKey");
    S3fsMounter(
      Get(secret, "bucketName"), Get(secret, "objectPath"), Get(secret, "cosEndpoint"), Get(secret, "locationConstraint"),
      if apiKey != "" then "iam" else "hmac",
      if apiKey != "" then ":" + apiKey else Get(secret, "accessKey") + ":" + Get(secret, "secretKey"),
      Get(secret, "iamEndpoint"), Get(secret, "kpRootKeyCRN"), options, param)
  }

  method NewS3fsMounter(r: Request, order: seq<string>, unknownOrder: seq<string>) returns (s: S3fsMounter)
    requires Enumerates(order, r.Known().Keys) && Enumerates(unknownOrder, r.Unknown().Keys)
    ensures Built(s, r, order, unknownOrder)
    ensures s == MounterFor(r.secret, s.mountOptions, s.addMountParam)
    ensures s.bucketName == Get(r.secret, "bucketName") && s.objectPath == Get(r.secret, "objectPath")
    ensures s.endPoint == Get(r.secret, "cosEndpoint") && s.locConstraint == Get(r.secret, "locationConstraint")
    ensures s.iamEndpoint == Get(r.secret, "iamEndpoint") && s.kpRootKeyCrn == Get(r.secret, "kpRootKeyCRN")
  {
    var options, param := BuildOptions(r, order, unknownOrder);
    s := MounterFor(r.secret, options, param);
  }

  // ---------------------------------------------------------------- names

  lemma KnownNames(r: Request)
    ensures r.Known().Keys <= KNOWN_S3FS_OPTIONS
    ensures forall k | k in r.Known() :: '=' !in k
    ensures r.Unknown().Keys !! KNOWN_S3FS_OPTIONS
    ensures WellFormed(r.Unknown())
  {
    DriverNamesAreKnown();
    ParsedIsWellFormed(r.scOptions + SecretLines(r.secret));
    RuledNames();
  }

  lemma RuledNames()
    ensures forall k | k in RULED :: '=' !in k
    ensures '=' !in CIPHER_SUITES && RULED <= KNOWN_S3FS_OPTIONS
  {
    DriverNamesAreKnown();
  }

  /** What the options list says: the known options, and the default cipher if none was chosen. */
  lemma OptionsMeaning(s: S3fsMounter, r: Request, order: seq<string>, unknownOrder: seq<string>)
    requires Built(s, r, order, unknownOrder)
    ensures Meaning(s.mountOptions) ==
            if r.tlsCipher != "" && CIPHER_SUITES !in r.Known() then Flags(r.Known())[CIPHER_SUITES := r.tlsCipher]
            else Flags(r.Known())
  {
    KnownNames(r);
    RuledNames();
    var printed := PrintAll(Listing(order, r.Known()));
    ReadPrintedAll(order, r.Known());
    FoldEnumeration(order, Flags(r.Known()));
    OneDefaultPrinted(r.Known(), r.tlsCipher);
    if r.tlsCipher != "" && CIPHER_SUITES !in r.Known() {
      ReadAssigned(CIPHER_SUITES, r.tlsCipher);
      MeaningSnoc(printed, Assign(CIPHER_SUITES, r.tlsCipher));
    } else {
      assert printed + [] == printed;
    }
  }

  lemma OneDefaultPrinted(m: Bindings, cipher: string)
    ensures PrintDefaults([CIPHER_SUITES], map[CIPHER_SUITES := cipher], m) ==
            if cipher != "" && CIPHER_SUITES !in m then [Assign(CIPHER_SUITES, cipher)] else []
  {
    assert [CIPHER_SUITES][..0] == [];
    assert PrintDefaults([], map[CIPHER_SUITES := cipher], m) == [];
  }

  lemma OptionsNames(s: S3fsMounter, r: Request, order: seq<string>, unknownOrder: seq<string>)
    requires Built(s, r, order, unknownOrder)
    ensures Meaning(s.mountOptions).Keys <= KNOWN_S3FS_OPTIONS
    ensures forall k | k in Meaning(s.mountOptions) :: '=' !in k
    ensures forall k | k != CIPHER_SUITES :: k in Meaning(s.mountOptions) <==> k in r.Known()
  {
    OptionsMeaning(s, r, order, unknownOrder);
    KnownNames(r);
    RuledNames();
    CipherIsKnown();
    FlagsNames(r.Known(), CIPHER_SUITES, r.tlsCipher, KNOWN_S3FS_OPTIONS);
  }

  lemma CipherIsKnown()
    ensures CIPHER_SUITES in KNOWN_S3FS_OPTIONS
  {
    DriverNamesAreKnown();
  }

  lemma FlagsNames(m: Bindings, c: string, v: string, known: set<string>)
    requires m.Keys <= known && c in known && '=' !in c && forall k | k in m :: '=' !in k
    ensures Flags(m).Keys == m.Keys && Flags(m)[c := v].Keys == m.Keys + {c}
    ensures Flags(m)[c := v].Keys <= known && forall k | k in Flags(m)[c := v] :: '=' !in k
  {
  }

  lemma OverlayNames(h: Bindings, o: Bindings, a: Bindings, known: set<string>)
    requires h.Keys <= known && o.Keys <= known && a.Keys <= known
    requires forall k | k in h.Keys + a.Keys :: '=' !in k
    requires forall k | k in o :: '=' !in k
    ensures (h + o + a).Keys <= known && forall k | k in h + o + a :: '=' !in k
    ensures (h + MapValues(UpToEquals, o) + a).Keys == (h + o + a).Keys
  {
  }

  lemma DirectNames(s: S3fsMounter, r: Request, order: seq<string>, unknownOrder: seq<string>, passwdFile: string)
    requires Built(s, r, order, unknownOrder)
    ensures Meaning(DirectOptions(s, passwdFile)).Keys <= KNOWN_S3FS_OPTIONS
    ensures forall k | k in Meaning(DirectOptions(s, passwdFile)) :: '=' !in k
    ensures WorkerOptions(s, passwdFile).Keys == Meaning(DirectOptions(s, passwdFile)).Keys
  {
    BackEnds(s, passwdFile);
    OptionsNames(s, r, order, unknownOrder);
    HeadNames(s, passwdFile);
    OverlayNames(HeadMap(s, passwdFile), Meaning(s.mountOptions), AuthMap(s), KNOWN_S3FS_OPTIONS);
  }

  lemma HeadNames(s: S3fsMounter, passwdFile: string)
    ensures HeadMap(s, passwdFile).Keys <= KNOWN_S3FS_OPTIONS && AuthMap(s).Keys <= KNOWN_S3FS_OPTIONS
    ensures forall k | k in HeadMap(s, passwdFile).Keys + AuthMap(s).Keys :: '=' !in k
    ensures "tmpdir" !in HeadMap(s, passwdFile).Keys + AuthMap(s).Keys
    ensures "use_cache" !in HeadMap(s, passwdFile).Keys + AuthMap(s).Keys
  {
    DriverNamesAreKnown();
    NoEqualsInNames();
    assert HeadMap(s, passwdFile).Keys <=
           {"sigv2", "use_path_request_style", "passwd_file", "url", "allow_other", "mp_umask", "endpoint"};
    assert AuthMap(s).Keys <= {"ibm_iam_auth", "ibm_iam_endpoint", "default_acl"};
  }

  /** Every name the driver sends is a field of the service or one of two cache options. No unknown
      option has the name of a sent entry, unless one is itself called add-mount-param; then it
      shares its name with the entry that carries it. */
  lemma WorkerNames(s: S3fsMounter, r: Request, order: seq<string>, unknownOrder: seq<string>, passwdFile: string)
    requires Built(s, r, order, unknownOrder)
    ensures WorkerMap(s, passwdFile).Keys <= S3FS_TAGS + {"tmpdir", "use_cache"}
    ensures WorkerMap(s, passwdFile).Keys !! r.Unknown().Keys - {ADD_MOUNT_PARAM}
    ensures WorkerMap(s, passwdFile).Keys !! r.Unknown().Keys <==> ADD_MOUNT_PARAM !in r.Unknown()
  {
    DirectNames(s, r, order, unknownOrder, passwdFile);
    TagsAndKnownOptions();
    KnownNames(r);
    assert WorkerMap(s, passwdFile).Keys <= WorkerOptions(s, passwdFile).Keys + {ADD_MOUNT_PARAM};
    if ADD_MOUNT_PARAM in r.Unknown() {
      ParamIsSent(s, r, order, unknownOrder, ADD_MOUNT_PARAM);
    }
  }

  /** Any unknown option makes the driver send a parameter. */
  lemma ParamIsSent(s: S3fsMounter, r: Request, order: seq<string>, unknownOrder: seq<string>, k: string)
    requires Built(s, r, order, unknownOrder) && k in r.Unknown()
    ensures s.addMountParam != ""
  {
    EnumeratesMembers(unknownOrder, r.Unknown().Keys);
    KnownNames(r);
    JoinedIsNotEmpty(r.Unknown(), unknownOrder, k);
  }

  lemma JoinedIsNotEmpty(u: Bindings, order: seq<string>, k: string)
    requires (forall k | k in order :: k in u) && k in order && k != ""
    ensures Join(PrintAll(Listing(order, u)), ',') != ""
  {
    var i :| 0 <= i < |order| && order[i] == k;
    JoinNonEmpty(PrintAll(Listing(order, u)), ',', i);
  }

  /** The worker accepts the request exactly when nothing anywhere names tmpdir or use_cache. */
  lemma WorkerAccepts(s: S3fsMounter, r: Request, order: seq<string>, unknownOrder: seq<string>, passwdFile: string)
    requires Built(s, r, order, unknownOrder)
    ensures StrictDecode(WorkerMap(s, passwdFile), S3FS_TAGS).Args? <==>
            forall k | k in {"tmpdir", "use_cache"} :: k !in r.secret && k !in Parsed(r.scOptions + SecretLines(r.secret))
  {
    WorkerNames(s, r, order, unknownOrder, passwdFile);
    CacheOptionsKnown(r);
    forall k | k in {"tmpdir", "use_cache"} ensures k in WorkerMap(s, passwdFile) <==> k in r.Known() {
      CacheOptionsSent(s, r, order, unknownOrder, passwdFile, k);
    }
    AllButTwo(WorkerMap(s, passwdFile).Keys);
  }

  lemma AllButTwo(keys: set<string>)
    requires keys <= S3FS_TAGS + {"tmpdir", "use_cache"}
    ensures keys <= S3FS_TAGS <==> "tmpdir" !in keys && "use_cache" !in keys
  {
    TagsAndKnownOptions();
    AddMountParamIsNotAnOption();
    DriverNamesAreKnown();
  }

  lemma CacheOptionsSent(s: S3fsMounter, r: Request, order: seq<string>, unknownOrder: seq<string>, passwdFile: string, k: string)
    requires Built(s, r, order, unknownOrder)
    requires k in {"tmpdir", "use_cache"}
    ensures k in WorkerMap(s, passwdFile) <==> k in r.Known()
  {
    BackEnds(s, passwdFile);
    HeadNames(s, passwdFile);
    OptionsNames(s, r, order, unknownOrder);
    CacheOptionsKnown(r);
  }

  lemma CacheOptionsKnown(r: Request)
    ensures forall k | k in {"tmpdir", "use_cache"} ::
      && (k in r.Known() <==> k in r.secret || k in Parsed(r.scOptions + SecretLines(r.secret)))
      && k != CIPHER_SUITES && k != ADD_MOUNT_PARAM
  {
    NamesDiffer();
    DriverNamesAreKnown();
    AddMountParamIsNotAnOption();
  }

  // ---------------------------------------------------------------- unknown options

  predicate CommaFree(m: Bindings) {
    forall k | k in m :: ',' !in k && ',' !in m[k]
  }

  /** Joining the unknown options and splitting them on the worker gives the same list back, and
      classifying that list gives the same options back. */
  lemma JoinSplitRoundTrip(u: Bindings, order: seq<string>)
    requires WellFormed(u) && CommaFree(u) && Enumerates(order, u.Keys)
    ensures forall k :: k in order <==> k in u
    ensures AddParts(Join(PrintAll(Listing(order, u)), ',')) == PrintAll(Listing(order, u))
    ensures Parsed(AddParts(Join(PrintAll(Listing(order, u)), ','))) == u
  {
    FoldEnumeration(order, u);
    ArriveWhole(u, order);
    ParseAllPrinted(Listing(order, u));
  }

  lemma ArriveWhole(u: Bindings, order: seq<string>)
    requires WellFormed(u) && CommaFree(u) && forall k | k in order :: k in u
    ensures AddParts(Join(PrintAll(Listing(order, u)), ',')) == PrintAll(Listing(order, u))
  {
    var xs := PrintAll(Listing(order, u));
    forall i | 0 <= i < |xs| ensures AddParts(xs[i]) == [xs[i]] {
      WholeOption(order[i], u[order[i]]);
    }
    AddPartsOfJoin(xs);
    CollectElementwise(AddParts, xs, xs);
  }

  lemma NoCommaPrinted(k: string, v: string)
    requires ',' !in k && ',' !in v
    ensures ',' !in Print(k, v)
  {
    assert ',' !in "=";
  }

  lemma UnknownMeaning(u: Bindings, order: seq<string>)
    requires WellFormed(u) && CommaFree(u) && Enumerates(order, u.Keys)
    requires forall k | k in order :: k in u
    ensures Meaning(AddParts(Join(PrintAll(Listing(order, u)), ','))) == Flags(u)
  {
    JoinSplitRoundTrip(u, order);
    ReadPrintedAll(order, u);
    FoldEnumeration(order, Flags(u));
  }

  /** Nothing the service splits off on commas holds one. */
  lemma PartsHaveNoComma(param: string, k: string)
    requires k in Meaning(AddParts(param))
    ensures ',' !in k && ',' !in Norm(Meaning(AddParts(param))[k])
  {
    var xs := AddParts(param);
    FoldBinds(ReadAll(xs), k);
    var i: nat :| LastFor(ReadAll(xs), i, k);
    var piece := CollectedFrom(PartStep, Split(param, ','), xs[i]);
    TrimKeeps(piece, ',');
    assert ',' !in xs[i];
    ReadNoComma(xs[i]);
    assert ',' !in "true";
  }

  lemma ReadNoComma(x: string)
    requires ',' !in x
    ensures ',' !in ReadOption(x).name && ',' !in ReadOption(x).value
  {
    assert ',' !in "true";
  }

  // ---------------------------------------------------------------- the whole way

  /** The worker's argv says the same as the direct one about option k. */
  predicate Carried(k: string, v: string, fromOptions: bool) {
    v != "" && !(k == CIPHER_SUITES && Reads(v, "default")) && (fromOptions ==> '=' !in v)
  }

  predicate FromOptions(s: S3fsMounter, k: string) {
    k in Meaning(s.mountOptions) && k !in AuthMap(s)
  }

  lemma CarriedOne(k: string, v: string, w: string, fromOptions: bool)
    requires k != ADD_MOUNT_PARAM
    requires w == if fromOptions then UpToEquals(v) else v
    ensures Carried(k, v, fromOptions) <==> w != "" && !Skipped(k, w) && Norm(w) == Norm(v)
  {
    if fromOptions && '=' in v {
      if Reads(v, "true") {
        ReadsExcludes(v, "true", '=');
      }
      assert '=' in Norm(v) && '=' !in "true";
    }
  }

  lemma CarriedAll(d: Bindings, w: Bindings, fromOptions: set<string>)
    requires d.Keys == w.Keys && ADD_MOUNT_PARAM !in d
    requires forall k | k in d :: w[k] == if k in fromOptions then UpToEquals(d[k]) else d[k]
    ensures MapValues(Norm, Emitted(NonEmpty(w))) == MapValues(Norm, d) <==>
            forall k | k in d :: Carried(k, d[k], k in fromOptions)
  {
    var e := MapValues(Norm, Emitted(NonEmpty(w)));
    var good := set k | k in d && Carried(k, d[k], k in fromOptions);
    EmittedNames(w);
    forall k | k in d ensures k in good <==> k in e && e[k] == Norm(d[k]) {
      CarriedOne(k, d[k], w[k], k in fromOptions);
      EmittedAt(w, k);
    }
    EqualWhereGood(e, MapValues(Norm, d), good);
  }

  lemma EmittedAt(w: Bindings, k: string)
    requires k in w
    ensures var e := MapValues(Norm, Emitted(NonEmpty(w)));
            && (k in e <==> w[k] != "" && !Skipped(k, w[k]))
            && (k in e ==> e[k] == Norm(w[k]))
  {
  }

  lemma EqualWhereGood(e: Bindings, d: Bindings, good: set<string>)
    requires e.Keys <= d.Keys
    requires forall k | k in d :: k in good <==> k in e && e[k] == d[k]
    ensures e == d <==> d.Keys <= good
  {
  }

  lemma WorkerByKey(s: S3fsMounter, passwdFile: string, k: string)
    requires k in Meaning(DirectOptions(s, passwdFile))
    ensures k in WorkerOptions(s, passwdFile)
    ensures var v := Meaning(DirectOptions(s, passwdFile))[k];
            WorkerOptions(s, passwdFile)[k] == if FromOptions(s, k) then UpToEquals(v) else v
  {
    BackEnds(s, passwdFile);
  }

  lemma OverlayDisjoint(a: Bindings, b: Bindings, n: Bindings)
    requires a.Keys !! n.Keys && b.Keys !! n.Keys
    ensures a + n == b + n <==> a == b
  {
    assert a + n == b + n ==> a == (a + n) - n.Keys && b == (b + n) - n.Keys;
  }

  lemma RequestFields(wo: Bindings, w: Bindings, param: string, tags: set<string>)
    requires ADD_MOUNT_PARAM !in wo && ADD_MOUNT_PARAM in tags
    requires w == if param != "" then wo[ADD_MOUNT_PARAM := param] else wo
    requires w.Keys <= tags
    ensures Emitted(NonEmpty(w)) == Emitted(NonEmpty(wo))
    ensures Get(StrictDecode(w, tags).args.fields, ADD_MOUNT_PARAM) == param
  {
  }

  /** The wire request is decoded into args: what is emitted, and what is added. */
  lemma DecodedRequest(s: S3fsMounter, r: Request, order: seq<string>, unknownOrder: seq<string>, passwdFile: string)
    requires Built(s, r, order, unknownOrder)
    requires StrictDecode(WorkerMap(s, passwdFile), S3FS_TAGS).Args?
    ensures var args := StrictDecode(WorkerMap(s, passwdFile), S3FS_TAGS).args;
            && Marshal(args) == NonEmpty(WorkerMap(s, passwdFile))
            && Emitted(Marshal(args)) == Emitted(NonEmpty(WorkerOptions(s, passwdFile)))
            && Get(args.fields, ADD_MOUNT_PARAM) == s.addMountParam
            && forall k | k in Marshal(args) :: '=' !in k
  {
    DecodeMarshal(WorkerMap(s, passwdFile), S3FS_TAGS);
    DirectNames(s, r, order, unknownOrder, passwdFile);
    AddMountParamIsNotAnOption();
    AddMountParamIsATag();
    RequestFields(WorkerOptions(s, passwdFile), WorkerMap(s, passwdFile), s.addMountParam, S3FS_TAGS);
  }

  lemma AddMountParamIsATag()
    ensures ADD_MOUNT_PARAM in S3FS_TAGS && '=' !in ADD_MOUNT_PARAM
  {
  }

  /** The main theorem. For every request, every iteration order of the three maps and every
      mounter built from them: the argv the worker rebuilds means the direct argv plus exactly the
      classified unknown options if, and only if, no unknown option holds a comma and every direct
      option is carried: it has a value, a value that came through the option list has no '=', and
      it is no cipher_suites reading "default". */
  lemma EndToEnd(s: S3fsMounter, r: Request, order: seq<string>, unknownOrder: seq<string>, passwdFile: string,
                 args: S3FSArgs, serverOrder: seq<string>)
    requires Built(s, r, order, unknownOrder)
    requires StrictDecode(WorkerMap(s, passwdFile), S3FS_TAGS) == Args(args)
    requires Enumerates(serverOrder, Marshal(args).Keys - {IAM_AUTH, IAM_ENDPOINT})
    ensures var direct := Meaning(DirectOptions(s, passwdFile));
            NormMeaning(ServerOptions(args, serverOrder)) == MapValues(Norm, direct) + MapValues(Norm, Flags(r.Unknown())) <==>
            CommaFree(r.Unknown()) && forall k | k in direct :: Carried(k, direct[k], FromOptions(s, k))
  {
    ServerSays(s, r, order, unknownOrder, passwdFile, args, serverOrder);
    SaysTheSame(s, r, order, unknownOrder, passwdFile);
  }

  lemma ServerSays(s: S3fsMounter, r: Request, order: seq<string>, unknownOrder: seq<string>, passwdFile: string,
                   args: S3FSArgs, serverOrder: seq<string>)
    requires Built(s, r, order, unknownOrder)
    requires StrictDecode(WorkerMap(s, passwdFile), S3FS_TAGS) == Args(args)
    requires Enumerates(serverOrder, Marshal(args).Keys - {IAM_AUTH, IAM_ENDPOINT})
    ensures NormMeaning(ServerOptions(args, serverOrder)) ==
            EmittedMeaning(s, passwdFile) + NormMeaning(AddParts(s.addMountParam))
  {
    DecodedRequest(s, r, order, unknownOrder, passwdFile);
    ServerMeaning(args, serverOrder);
  }

  lemma SaysTheSame(s: S3fsMounter, r: Request, order: seq<string>, unknownOrder: seq<string>, passwdFile: string)
    requires Built(s, r, order, unknownOrder)
    ensures var direct := Meaning(DirectOptions(s, passwdFile));
            EmittedMeaning(s, passwdFile) + NormMeaning(AddParts(s.addMountParam)) ==
            MapValues(Norm, direct) + MapValues(Norm, Flags(r.Unknown())) <==>
            CommaFree(r.Unknown()) && forall k | k in direct :: Carried(k, direct[k], FromOptions(s, k))
  {
    var direct := Meaning(DirectOptions(s, passwdFile));
    KnownPart(s, r, order, unknownOrder, passwdFile);
    UnknownPart(r.Unknown(), unknownOrder, EmittedMeaning(s, passwdFile), direct);
    Decide(EmittedMeaning(s, passwdFile), MapValues(Norm, direct), NormMeaning(AddParts(s.addMountParam)),
           MapValues(Norm, Flags(r.Unknown())), CommaFree(r.Unknown()),
           forall k | k in direct :: Carried(k, direct[k], FromOptions(s, k)));
  }

  lemma UnknownPart(u: Bindings, order: seq<string>, emitted: Bindings, direct: Bindings)
    requires WellFormed(u) && Enumerates(order, u.Keys) && emitted.Keys !! u.Keys
    requires forall k | k in order :: k in u
    ensures var added := NormMeaning(AddParts(Join(PrintAll(Listing(order, u)), ',')));
            if CommaFree(u) then added == MapValues(Norm, Flags(u))
            else emitted + added != MapValues(Norm, direct) + MapValues(Norm, Flags(u))
  {
    if CommaFree(u) {
      UnknownMeaning(u, order);
    } else {
      var k :| k in u && (',' in k || ',' in u[k]);
      CommaIsLost(Join(PrintAll(Listing(order, u)), ','), emitted, direct, u, k);
    }
  }

  lemma Decide(e: Bindings, d: Bindings, added: Bindings, u: Bindings, commaFree: bool, carried: bool)
    requires e.Keys !! u.Keys && d.Keys !! u.Keys
    requires e == d <==> carried
    requires if commaFree then added == u else e + added != d + u
    ensures e + added == d + u <==> commaFree && carried
  {
    if commaFree {
      OverlayDisjoint(e, d, u);
    }
  }

  /** What the service emits out of the request's fields. */
  function EmittedMeaning(s: S3fsMounter, passwdFile: string): Bindings {
    MapValues(Norm, Emitted(NonEmpty(WorkerOptions(s, passwdFile))))
  }

  lemma KnownPart(s: S3fsMounter, r: Request, order: seq<string>, unknownOrder: seq<string>, passwdFile: string)
    requires Built(s, r, order, unknownOrder)
    ensures var direct := Meaning(DirectOptions(s, passwdFile));
            && (EmittedMeaning(s, passwdFile) == MapValues(Norm, direct) <==>
                forall k | k in direct :: Carried(k, direct[k], FromOptions(s, k)))
            && EmittedMeaning(s, passwdFile).Keys !! r.Unknown().Keys
            && direct.Keys !! r.Unknown().Keys
            && WellFormed(r.Unknown())
  {
    DirectNames(s, r, order, unknownOrder, passwdFile);
    KnownNames(r);
    AddMountParamIsNotAnOption();
    var direct, worker := Meaning(DirectOptions(s, passwdFile)), WorkerOptions(s, passwdFile);
    var fromOptions := set k | k in direct && FromOptions(s, k);
    forall k | k in direct ensures worker[k] == if k in fromOptions then UpToEquals(direct[k]) else direct[k] {
      WorkerByKey(s, passwdFile, k);
    }
    CarriedAll(direct, worker, fromOptions);
    EmittedNames(worker);
  }

  lemma EmittedNames(w: Bindings)
    ensures MapValues(Norm, Emitted(NonEmpty(w))).Keys <= w.Keys
  {
  }

  /** An unknown option with a comma cannot come back. */
  lemma CommaIsLost(param: string, emitted: Bindings, direct: Bindings, u: Bindings, k: string)
    requires k in u && k !in emitted && (',' in k || ',' in u[k])
    ensures emitted + NormMeaning(AddParts(param)) != MapValues(Norm, direct) + MapValues(Norm, Flags(u))
  {
    var l, rr := emitted + NormMeaning(AddParts(param)), MapValues(Norm, direct) + MapValues(Norm, Flags(u));
    assert rr[k] == Norm(FlagValue(k, u[k]));
    if k in Meaning(AddParts(param)) {
      PartsHaveNoComma(param, k);
      assert l[k] == Norm(Meaning(AddParts(param))[k]);
      CommaStays(k, u[k]);
    } else {
      assert k !in l;
    }
  }

  lemma CommaStays(k: string, v: string)
    requires ',' !in k && ',' in v
    ensures ',' in Norm(FlagValue(k, v))
  {
    if Reads(v, "true") {
      ReadsExcludes(v, "true", ',');
    }
  }

  // ---------------------------------------------------------------- the driver's own connection options

  const URL := "url"
  const PASSWD_FILE := "passwd_file"
  const ENDPOINT := "endpoint"

  /** The value an option gives to k, if the option list has k. */
  function Given(r: Request, k: string): Option<string> {
    if k in r.Known() then Some(FlagValue(k, r.Known()[k])) else None
  }

  lemma ConnectionNames(s: S3fsMounter, passwdFile: string)
    ensures URL !in AuthMap(s) && PASSWD_FILE !in AuthMap(s) && ENDPOINT !in AuthMap(s)
    ensures CIPHER_SUITES !in {URL, PASSWD_FILE, ENDPOINT}
    ensures Lookup(HeadMap(s, passwdFile), URL) == Some(s.endPoint)
    ensures Lookup(HeadMap(s, passwdFile), PASSWD_FILE) == Some(passwdFile)
    ensures Lookup(HeadMap(s, passwdFile), ENDPOINT) == if s.locConstraint != "" then Some(s.locConstraint) else None
  {
    assert URL[0] == 'u' && PASSWD_FILE[0] == 'p' && ENDPOINT[0] == 'e' && CIPHER_SUITES[0] == 'c';
    assert AuthMap(s).Keys <= {"ibm_iam_auth", "ibm_iam_endpoint", "default_acl"};
  }

  lemma OverlayAt(h: Bindings, o: Bindings, a: Bindings, k: string)
    requires k !in a
    ensures Lookup(h + o + a, k) == if k in o then Some(o[k]) else Lookup(h, k)
  {
  }

  lemma DirectAt(s: S3fsMounter, r: Request, order: seq<string>, unknownOrder: seq<string>, passwdFile: string, k: string)
    requires Built(s, r, order, unknownOrder) && k !in AuthMap(s) && k != CIPHER_SUITES
    ensures Lookup(Meaning(DirectOptions(s, passwdFile)), k) ==
            if Given(r, k).Some? then Given(r, k) else Lookup(HeadMap(s, passwdFile), k)
  {
    BackEnds(s, passwdFile);
    GivenAt(s, r, order, unknownOrder, k);
    OverlayAt(HeadMap(s, passwdFile), Meaning(s.mountOptions), AuthMap(s), k);
  }

  lemma GivenAt(s: S3fsMounter, r: Request, order: seq<string>, unknownOrder: seq<string>, k: string)
    requires Built(s, r, order, unknownOrder) && k != CIPHER_SUITES
    ensures Lookup(Meaning(s.mountOptions), k) == Given(r, k)
  {
    OptionsMeaning(s, r, order, unknownOrder);
  }

  /** The driver's own url, password file and endpoint come first in the argv, so a mount option of
      that name beats them; otherwise s3fs gets the mounter's. */
  lemma ConnectionOptions(s: S3fsMounter, r: Request, order: seq<string>, unknownOrder: seq<string>, passwdFile: string)
    requires Built(s, r, order, unknownOrder)
    ensures var m := Meaning(DirectOptions(s, passwdFile));
            && Lookup(m, URL) == (if Given(r, URL).Some? then Given(r, URL) else Some(s.endPoint))
            && Lookup(m, PASSWD_FILE) == (if Given(r, PASSWD_FILE).Some? then Given(r, PASSWD_FILE) else Some(passwdFile))
            && Lookup(m, ENDPOINT) ==
               (if Given(r, ENDPOINT).Some? then Given(r, ENDPOINT)
                else if s.locConstraint != "" then Some(s.locConstraint) else None)
  {
    ConnectionNames(s, passwdFile);
    DirectAt(s, r, order, unknownOrder, passwdFile, URL);
    DirectAt(s, r, order, unknownOrder, passwdFile, PASSWD_FILE);
    DirectAt(s, r, order, unknownOrder, passwdFile, ENDPOINT);
  }

  /** What is mounted: the secret's bucket, and of it the part below the secret's object path. */
  lemma MountsBucketAndPath(s: S3fsMounter, secret: Bindings)
    requires s == MounterFor(secret, s.mountOptions, s.addMountParam) && ':' !in Get(secret, "bucketName")
    ensures var parts, path := SplitN2(s.BucketArgument(), ':'), Get(secret, "objectPath");
            && parts[0] == Get(secret, "bucketName")
            && (path == "" ==> s.BucketArgument() == Get(secret, "bucketName"))
            && (path != "" ==> |parts| == 2 && parts[1] == if path[0] == '/' then path else "/" + path)
  {
    BucketArgumentReads(s);
    if s.objectPath == "" {
      assert IndexOf(s.bucketName, ':') == |s.bucketName|;
    } else if s.objectPath[0] != '/' {
      var rest := SplitN2(s.BucketArgument(), ':')[1];
      assert rest == [rest[0]] + rest[1..];
    }
  }

  /** The settings the driver always makes, unless a mount option overrides them. */
  lemma FixedSettings(s: S3fsMounter, r: Request, order: seq<string>, unknownOrder: seq<string>, passwdFile: string, k: string)
    requires Built(s, r, order, unknownOrder)
    requires k in {"sigv2", "use_path_request_style", "allow_other", "mp_umask"}
    ensures Lookup(Meaning(DirectOptions(s, passwdFile)), k) ==
            if Given(r, k).Some? then Given(r, k) else if k == "mp_umask" then Some("002") else Some("true")
  {
    FixedNames(s, passwdFile, k);
    DirectAt(s, r, order, unknownOrder, passwdFile, k);
  }

  lemma FixedNames(s: S3fsMounter, passwdFile: string, k: string)
    requires k in {"sigv2", "use_path_request_style", "allow_other", "mp_umask"}
    ensures k !in AuthMap(s) && k != CIPHER_SUITES
    ensures Lookup(HeadMap(s, passwdFile), k) == if k == "mp_umask" then Some("002") else Some("true")
  {
    assert AuthMap(s).Keys <= {"ibm_iam_auth", "ibm_iam_endpoint", "default_acl"};
    assert k[0] in "suam" && CIPHER_SUITES[0] == 'c';
  }

  /** How s3fs authenticates, for every mounter built from a secret: with an API key by IAM at the
      secret's IAM endpoint, the key alone behind the colon of the password file; without one by the
      secret's HMAC pair, under a private ACL. No mount option changes these. */
  lemma AuthenticatesExactly(s: S3fsMounter, r: Request, order: seq<string>, unknownOrder: seq<string>, passwdFile: string)
    requires Built(s, r, order, unknownOrder) && s == MounterFor(r.secret, s.mountOptions, s.addMountParam)
    ensures var m, apiKey := Meaning(DirectOptions(s, passwdFile)), Get(r.secret, "apiKey");
            if apiKey != "" then
              && Lookup(m, "ibm_iam_auth") == Some("true")
              && Lookup(m, "ibm_iam_endpoint") == Some(Get(r.secret, "iamEndpoint"))
              && s.accessKeys == ":" + apiKey
            else
              && Lookup(m, "default_acl") == Some("private")
              && Lookup(m, "ibm_iam_auth") == Given(r, "ibm_iam_auth")
              && s.accessKeys == Get(r.secret, "accessKey") + ":" + Get(r.secret, "secretKey")
  {
    BackEnds(s, passwdFile);
    AuthTypes();
    var head, opts := HeadMap(s, passwdFile), Meaning(s.mountOptions);
    if Get(r.secret, "apiKey") != "" {
      AuthWins(head, opts, AuthMap(s), "ibm_iam_auth");
      AuthWins(head, opts, AuthMap(s), "ibm_iam_endpoint");
    } else {
      AuthWins(head, opts, AuthMap(s), "default_acl");
      HmacHasNoIam(s, passwdFile);
      DirectAt(s, r, order, unknownOrder, passwdFile, "ibm_iam_auth");
    }
  }

  lemma AuthTypes()
    ensures "iam" != "hmac" && "ibm_iam_auth" != "ibm_iam_endpoint"
  {
    assert "iam"[0] == 'i' && "hmac"[0] == 'h';
    AuthNamesDiffer();
  }

  lemma AuthWins(h: Bindings, o: Bindings, a: Bindings, k: string)
    requires k in a
    ensures Lookup(h + o + a, k) == Some(a[k])
  {
  }

  lemma HmacHasNoIam(s: S3fsMounter, passwdFile: string)
    requires s.authType == "hmac"
    ensures "ibm_iam_auth" !in AuthMap(s) && "ibm_iam_auth" !in HeadMap(s, passwdFile) && "ibm_iam_auth" != CIPHER_SUITES
  {
    assert "ibm_iam_auth"[0] == 'i' && "default_acl"[0] == 'd' && CIPHER_SUITES[0] == 'c';
    assert HeadMap(s, passwdFile).Keys <=
           {"sigv2", "use_path_request_style", "passwd_file", "url", "allow_other", "mp_umask", "endpoint"};
  }

  /** The identity and the mode of the mount, as s3fs is told: a read-only request is mounted ro, a
      pod's gid is the gid. */
  lemma PodSettings(s: S3fsMounter, r: Request, order: seq<string>, unknownOrder: seq<string>, passwdFile: string)
    requires Built(s, r, order, unknownOrder)
    ensures r.readOnly ==> Lookup(Meaning(DirectOptions(s, passwdFile)), "ro") == Some("true")
    ensures r.gid != "" ==> Lookup(Meaning(DirectOptions(s, passwdFile)), "gid") == Some(FlagValue("gid", r.gid))
  {
    PodNames(s);
    FinalExactly(r.scOptions, r.secret, KNOWN_S3FS_OPTIONS, r.gid, r.readOnly, "ro");
    FinalExactly(r.scOptions, r.secret, KNOWN_S3FS_OPTIONS, r.gid, r.readOnly, "gid");
    DirectAt(s, r, order, unknownOrder, passwdFile, "ro");
    DirectAt(s, r, order, unknownOrder, passwdFile, "gid");
  }

  lemma PodNames(s: S3fsMounter)
    ensures "ro" !in AuthMap(s) && "gid" !in AuthMap(s) && CIPHER_SUITES !in {"ro", "gid"}
  {
    assert "ro"[0] == 'r' && "gid"[0] == 'g' && CIPHER_SUITES[0] == 'c';
    assert AuthMap(s).Keys <= {"ibm_iam_auth", "ibm_iam_endpoint", "default_acl"};
  }

  /** Where the two argvs mean the same, the worker's gives a known option the direct value. */
  lemma WorkerSaysDirect(s: S3fsMounter, r: Request, order: seq<string>, unknownOrder: seq<string>, passwdFile: string,
                         args: S3FSArgs, serverOrder: seq<string>, k: string)
    requires Built(s, r, order, unknownOrder)
    requires StrictDecode(WorkerMap(s, passwdFile), S3FS_TAGS) == Args(args)
    requires Enumerates(serverOrder, Marshal(args).Keys - {IAM_AUTH, IAM_ENDPOINT})
    requires var direct := Meaning(DirectOptions(s, passwdFile));
             CommaFree(r.Unknown()) && forall k | k in direct :: Carried(k, direct[k], FromOptions(s, k))
    requires k in KNOWN_S3FS_OPTIONS
    ensures Lookup(NormMeaning(ServerOptions(args, serverOrder)), k) ==
            Lookup(MapValues(Norm, Meaning(DirectOptions(s, passwdFile))), k)
  {
    EndToEnd(s, r, order, unknownOrder, passwdFile, args, serverOrder);
    KnownNames(r);
    OverlayAt(MapValues(Norm, Meaning(DirectOptions(s, passwdFile))), map[], MapValues(Norm, Flags(r.Unknown())), k);
    Neutral(MapValues(Norm, Meaning(DirectOptions(s, passwdFile))));
  }

  // ---------------------------------------------------------------- the default cipher

  /** s3fs is told cipher_suites=default, in any case and spacing of the value. */
  predicate SaysDefaultCipher(x: string) {
    ReadOption(x).name == CIPHER_SUITES && Reads(ReadOption(x).value, "default")
  }

  lemma NormKeepsDefault()
    ensures forall v :: Reads(Norm(v), "default") ==> Reads(v, "default")
  {
    assert TrimSpace("true") == "true" && |ToLower("true")| == 4;
  }

  /** The joined parameter splits into what the single options split into. */
  lemma {:induction false} AddPartsOfJoin(xs: seq<string>)
    ensures AddParts(Join(xs, ',')) == Collect(AddParts, xs)
  {
    if xs == [] {
      NothingToAdd();
    } else if |xs| == 1 {
      CollectOne(AddParts, xs[0]);
      assert xs == [xs[0]];
    } else {
      var x, rest := xs[0], xs[1..];
      AddPartsOfJoin(rest);
      SplitConcat(x, ',', Join(rest, ','));
      CollectConcat(PartStep, Split(x, ','), Split(Join(rest, ','), ','));
      CollectConcat(AddParts, [x], rest);
      CollectOne(AddParts, x);
      assert xs == [x] + rest;
    }
  }

  /** The fields of the request never say it: the IAM entries have other names, and the loop over
      the map drops it. */
  lemma FieldsNeverSayDefault(m: Bindings, order: seq<string>, x: string)
    requires forall k | k in m :: '=' !in k
    requires x in AuthFirst(m) + Body(order, m)
    ensures !SaysDefaultCipher(x)
  {
    AuthNamesDiffer();
    if x in Body(order, m) {
      var k := CollectedFrom(BodyStep(m), order, x);
      ReadArg(k, m[k]);
      NormKeepsDefault();
    } else {
      ReadArg(IAM_AUTH, Get(m, IAM_AUTH));
      ReadAssigned(IAM_ENDPOINT, Get(m, IAM_ENDPOINT));
    }
  }

  /** Option k of u, printed and split on the worker, contains the setting that both sides filter. */
  predicate SmugglesDefault(u: Bindings, k: string)
    requires k in u
  {
    exists x :: x in AddParts(Print(k, u[k])) && SaysDefaultCipher(x)
  }

  lemma PartsOfUnknown(u: Bindings, order: seq<string>)
    requires Enumerates(order, u.Keys) && forall k | k in order :: k in u
    ensures (exists x :: x in AddParts(Join(PrintAll(Listing(order, u)), ',')) && SaysDefaultCipher(x)) <==>
            exists k :: k in u && SmugglesDefault(u, k)
  {
    var printed := PrintAll(Listing(order, u));
    EnumeratesMembers(order, u.Keys);
    AddPartsOfJoin(printed);
    if x :| x in AddParts(Join(printed, ',')) && SaysDefaultCipher(x) {
      var k := PartFrom(u, order, x);
      assert SmugglesDefault(u, k);
    }
    if k :| k in u && SmugglesDefault(u, k) {
      var x :| x in AddParts(Print(k, u[k])) && SaysDefaultCipher(x);
      PartOf(u, order, k, x);
    }
  }

  lemma PartFrom(u: Bindings, order: seq<string>, x: string) returns (k: string)
    requires forall k | k in order :: k in u
    requires x in Collect(AddParts, PrintAll(Listing(order, u)))
    ensures k in u && x in AddParts(Print(k, u[k]))
  {
    var printed := PrintAll(Listing(order, u));
    var p := CollectedFrom(AddParts, printed, x);
    var i :| 0 <= i < |printed| && printed[i] == p;
    k := order[i];
  }

  lemma PartOf(u: Bindings, order: seq<string>, k: string, x: string)
    requires (forall k | k in order :: k in u) && k in order
    requires x in AddParts(Print(k, u[k]))
    ensures x in Collect(AddParts, PrintAll(Listing(order, u)))
  {
    var printed := PrintAll(Listing(order, u));
    var i :| 0 <= i < |order| && order[i] == k;
    assert printed[i] == Print(k, u[k]);
    CollectContains(AddParts, printed, Print(k, u[k]), x);
  }

  /** The exact condition. For every request and all iteration orders, the worker tells s3fs
      cipher_suites=default if and only if some unknown option holds it between commas; the secret's
      and the StorageClass's own cipher setting and the node's default never get through. */
  lemma DefaultCipherExactly(s: S3fsMounter, r: Request, order: seq<string>, unknownOrder: seq<string>, passwdFile: string,
                             args: S3FSArgs, serverOrder: seq<string>)
    requires Built(s, r, order, unknownOrder)
    requires StrictDecode(WorkerMap(s, passwdFile), S3FS_TAGS) == Args(args)
    ensures (exists x :: x in ServerOptions(args, serverOrder) && SaysDefaultCipher(x)) <==>
            exists k :: k in r.Unknown() && SmugglesDefault(r.Unknown(), k)
  {
    DecodedRequest(s, r, order, unknownOrder, passwdFile);
    PartsOfUnknown(r.Unknown(), unknownOrder);
    var m := Marshal(args);
    var fields, added := AuthFirst(m) + Body(serverOrder, m), AddParts(s.addMountParam);
    assert ServerOptions(args, serverOrder) == fields + added;
    forall x | x in fields ensures !SaysDefaultCipher(x) {
      FieldsNeverSayDefault(m, serverOrder, x);
    }
    assert forall x :: x in ServerOptions(args, serverOrder) <==> x in fields || x in added;
  }

  /** In particular never with comma-free unknown options. */
  lemma NoDefaultCipher(s: S3fsMounter, r: Request, order: seq<string>, unknownOrder: seq<string>, passwdFile: string,
                        args: S3FSArgs, serverOrder: seq<string>)
    requires Built(s, r, order, unknownOrder)
    requires StrictDecode(WorkerMap(s, passwdFile), S3FS_TAGS) == Args(args)
    requires CommaFree(r.Unknown())
    ensures forall x | x in ServerOptions(args, serverOrder) :: !SaysDefaultCipher(x)
  {
    DefaultCipherExactly(s, r, order, unknownOrder, passwdFile, args, serverOrder);
    KnownNames(r);
    RuledNames();
    DriverNamesAreKnown();
    forall k | k in r.Unknown() ensures !SmugglesDefault(r.Unknown(), k) {
      CommaFreeSmugglesNothing(r.Unknown(), k);
    }
  }

  lemma CommaFreeSmugglesNothing(u: Bindings, k: string)
    requires WellFormed(u) && CommaFree(u) && k in u && k != CIPHER_SUITES
    ensures !SmugglesDefault(u, k)
  {
    WholeOption(k, u[k]);
  }

  /** A comma-free option arrives whole, under its own name. */
  lemma WholeOption(k: string, v: string)
    requires WellFormedName(k) && Trimmed(v) && ',' !in k && ',' !in v
    ensures AddParts(Print(k, v)) == [Print(k, v)] && ReadOption(Print(k, v)).name == k
  {
    ParsePrinted(k, v);
    NoCommaPrinted(k, v);
    SplitOne(Print(k, v), ',');
    CollectOne(PartStep, Print(k, v));
    ReadPrinted(k, v);
  }

  lemma AssignedIsTrimmed(k: string, v: string)
    requires WellFormedName(k) && ',' !in k && v != "" && Trimmed(v) && ',' !in v
    ensures Assign(k, v) != "" && Trimmed(Assign(k, v)) && ',' !in Assign(k, v)
  {
    var x := Assign(k, v);
    assert x[0] == k[0] && x[|x| - 1] == v[|v| - 1];
    assert ',' !in "=";
  }

  lemma TwoParts(a: string, b: string)
    requires a != "" && Trimmed(a) && ',' !in a && b != "" && Trimmed(b) && ',' !in b
    ensures AddParts(a + [','] + b) == [a, b]
  {
    assert Join([a, b][1..], ',') == b;
    SplitJoin([a, b], ',');
    CollectElementwise(PartStep, [a, b], [a, b]);
  }

  lemma Between(k: string, v: string, x: string)
    requires v != "" && Trimmed(v) && x != "" && Trimmed(x)
    ensures Trimmed(v + [','] + x) && ',' in v + [','] + x
    ensures Assign(k, v + [','] + x) == Assign(k, v) + [','] + x
  {
    var value := v + [','] + x;
    assert value[0] == v[0] && value[|value| - 1] == x[|x| - 1] && value[|v|] == ',';
  }

  /** The comma condition is needed: an unknown option k whose value is "v,name=w" is one option to
      the driver, but reaches s3fs as two, and the second sets name to w. */
  lemma CommaSplitsAnOption(k: string, v: string, name: string, w: string)
    requires WellFormedName(k) && ',' !in k && v != "" && Trimmed(v) && ',' !in v
    requires WellFormedName(name) && ',' !in name && w != "" && Trimmed(w) && ',' !in w
    ensures ParseOption(Print(k, v + [','] + Assign(name, w))) == Some(Setting(k, v + [','] + Assign(name, w)))
    ensures AddParts(Print(k, v + [','] + Assign(name, w))) == [Assign(k, v), Assign(name, w)]
    ensures ReadOption(Assign(name, w)) == Setting(name, w)
  {
    AssignedIsTrimmed(k, v);
    AssignedIsTrimmed(name, w);
    Between(k, v, Assign(name, w));
    ParsePrinted(k, v + [','] + Assign(name, w));
    TwoParts(Assign(k, v), Assign(name, w));
    ReadAssigned(name, w);
  }

  lemma CipherName()
    ensures WellFormedName(CIPHER_SUITES) && ',' !in CIPHER_SUITES
  {
    assert CIPHER_SUITES[0] == 'c' && CIPHER_SUITES[|CIPHER_SUITES| - 1] == 's';
    RuledNames();
  }

  lemma DefaultLiteral()
    ensures Trimmed("default") && ',' !in "default" && Reads("default", "default")
  {
  }

  lemma OneCharacterLiterals()
    ensures WellFormedName("x") && ',' !in "x" && "x" !in KNOWN_S3FS_OPTIONS
    ensures Trimmed("1") && ',' !in "1"
  {
  }

  lemma {:induction false} SomeOrder(keys: set<string>) returns (order: seq<string>)
    ensures Enumerates(order, keys) && forall k :: k in order <==> k in keys
    decreases |keys|
  {
    if keys == {} {
      order := [];
    } else {
      var k :| k in keys;
      var before := SomeOrder(keys - {k});
      order := before + [k];
      assert keys == (keys - {k}) + {k};
    }
  }

  /** Every request has mounters built from it. */
  lemma SomeMounter(r: Request) returns (s: S3fsMounter, order: seq<string>, unknownOrder: seq<string>)
    ensures Built(s, r, order, unknownOrder) && s == MounterFor(r.secret, s.mountOptions, s.addMountParam)
  {
    order := SomeOrder(r.Known().Keys);
    unknownOrder := SomeOrder(r.Unknown().Keys);
    s := MounterFor(r.secret, OptionsSlice(r.Known(), order, r.Defaults(), [CIPHER_SUITES]),
                    Join(PrintAll(Listing(unknownOrder, r.Unknown())), ','));
  }

  /** The request with one StorageClass option, and a secret that adds none, parses to that option. */
  lemma OneOption(r: Request, k: string, value: string)
    requires WellFormedName(k) && Trimmed(value) && r.scOptions == [Print(k, value)] && "mountOptions" !in r.secret
    ensures Parsed(r.scOptions + SecretLines(r.secret)) == map[k := value]
    ensures k !in KNOWN_S3FS_OPTIONS ==> r.Unknown() == map[k := value]
  {
    ParsePrinted(k, value);
    CollectOne(ParseStep, Print(k, value));
    assert r.scOptions + SecretLines(r.secret) == r.scOptions;
    FoldSnoc([], Setting(k, value));
    assert [] + [Setting(k, value)] == [Setting(k, value)];
  }

  /** The failing inputs, end to end: any request whose one StorageClass option is unknown to the
      driver and reads k=v,cipher_suites=w, with w a spelling of "default". It is accepted by the
      driver and the worker, and every argv rebuilt from it says cipher_suites=default. */
  lemma SmuggledThrough(r: Request, k: string, v: string, w: string, passwdFile: string,
                        s: S3fsMounter, order: seq<string>, unknownOrder: seq<string>, serverOrder: seq<string>)
    requires WellFormedName(k) && ',' !in k && v != "" && Trimmed(v) && ',' !in v && k !in KNOWN_S3FS_OPTIONS
    requires w != "" && Trimmed(w) && ',' !in w && Reads(w, "default")
    requires r.scOptions == [Print(k, v + [','] + Assign(CIPHER_SUITES, w))]
    requires "mountOptions" !in r.secret && "tmpdir" !in r.secret && "use_cache" !in r.secret
    requires Built(s, r, order, unknownOrder)
    ensures StrictDecode(WorkerMap(s, passwdFile), S3FS_TAGS).Args?
    ensures var args := StrictDecode(WorkerMap(s, passwdFile), S3FS_TAGS).args;
            exists x :: x in ServerOptions(args, serverOrder) && SaysDefaultCipher(x)
  {
    var value := v + [','] + Assign(CIPHER_SUITES, w);
    CipherName();
    AssignedIsTrimmed(CIPHER_SUITES, w);
    Between(k, v, Assign(CIPHER_SUITES, w));
    OneOption(r, k, value);
    CommaSplitsAnOption(k, v, CIPHER_SUITES, w);
    DriverNamesAreKnown();
    WorkerAccepts(s, r, order, unknownOrder, passwdFile);
    var x := Assign(CIPHER_SUITES, w);
    assert x in AddParts(Print(k, value)) && SaysDefaultCipher(x);
    assert k in r.Unknown() && SmugglesDefault(r.Unknown(), k);
    var args := StrictDecode(WorkerMap(s, passwdFile), S3FS_TAGS).args;
    DefaultCipherExactly(s, r, order, unknownOrder, passwdFile, args, serverOrder);
  }

  /** One such input, with the mounter, the decoded request and the orders it goes through: the
      option x=1,cipher_suites=default under an empty secret. */
  lemma CommaSmugglesDefaultCipher(passwdFile: string)
    returns (r: Request, s: S3fsMounter, order: seq<string>, unknownOrder: seq<string>,
             args: S3FSArgs, serverOrder: seq<string>)
    ensures r == Request(["x" + "=" + ("1" + [','] + (CIPHER_SUITES + "=" + "default"))], map[], "", false, "")
    ensures Built(s, r, order, unknownOrder) && s == MounterFor(r.secret, s.mountOptions, s.addMountParam)
    ensures StrictDecode(WorkerMap(s, passwdFile), S3FS_TAGS) == Args(args)
    ensures Enumerates(serverOrder, Marshal(args).Keys - {IAM_AUTH, IAM_ENDPOINT})
    ensures exists x :: x in ServerOptions(args, serverOrder) && SaysDefaultCipher(x)
  {
    DefaultLiteral();
    OneCharacterLiterals();
    var value := "1" + [','] + Assign(CIPHER_SUITES, "default");
    assert |value| > |"x"|;
    r := Request([Print("x", value)], map[], "", false, "");
    s, order, unknownOrder := SomeMounter(r);
    SmuggledThrough(r, "x", "1", "default", passwdFile, s, order, unknownOrder, []);
    args := StrictDecode(WorkerMap(s, passwdFile), S3FS_TAGS).args;
    serverOrder := SomeOrder(Marshal(args).Keys - {IAM_AUTH, IAM_ENDPOINT});
    SmuggledThrough(r, "x", "1", "default", passwdFile, s, order, unknownOrder, serverOrder);
  }
}
