/** The driver's two back ends: the argv it runs itself and the map it sends to the worker's
    mounter service (pkg/mounter/mounter-s3fs.go). */
module S3fsMounter {
  import opened GoStrings
  import opened LastWins
  import opened MountOptions

  // ---------------------------------------------------------------- what an option list means

  /** "name=value" sets name to value; a bare flag sets it to "true". */
  function ReadOption(x: string): Setting {
    var i := IndexOf(x, '=');
    if i == |x| then Setting(x, "true") else Setting(x[..i], x[i + 1..])
  }

  function ReadAll(opts: seq<string>): seq<Setting> {
    seq(|opts|, i requires 0 <= i < |opts| => ReadOption(opts[i]))
  }

  /** s3fs lets the last -o of a name win. */
  function Meaning(opts: seq<string>): Bindings {
    Fold(ReadAll(opts))
  }

  /** A printed setting: a value equal to its name was a bare flag. */
  function FlagValue(k: string, v: string): string {
    if k == v then "true" else v
  }

  function Flags(m: Bindings): Bindings {
    map k | k in m :: FlagValue(k, m[k])
  }

  lemma ReadAllConcat(a: seq<string>, b: seq<string>)
    ensures ReadAll(a + b) == ReadAll(a) + ReadAll(b)
  {
  }

  lemma MeaningConcat(a: seq<string>, b: seq<string>)
    ensures Meaning(a + b) == Meaning(a) + Meaning(b)
  {
    ReadAllConcat(a, b);
    FoldConcat(ReadAll(a), ReadAll(b));
  }

  function Assign(k: string, v: string): string {
    k + "=" + v
  }

  lemma ReadAssigned(k: string, v: string)
    requires '=' !in k
    ensures ReadOption(Assign(k, v)) == Setting(k, v)
  {
    IndexOfPrefix(k, '=', v);
    var x := k + "=" + v;
    assert x == k + ['='] + v;
    assert x[..|k|] == k && x[|k| + 1..] == v;
  }

  lemma ReadBare(k: string)
    requires '=' !in k
    ensures ReadOption(k) == Setting(k, "true")
  {
    assert IndexOf(k, '=') == |k|;
  }

  lemma ReadPrinted(k: string, v: string)
    requires '=' !in k
    ensures ReadOption(Print(k, v)) == Setting(k, FlagValue(k, v))
  {
    if k == v {
      ReadBare(k);
    } else {
      ReadAssigned(k, v);
    }
  }

  lemma ReadPrintedAll(order: seq<string>, m: Bindings)
    requires forall k | k in order :: k in m && '=' !in k
    ensures ReadAll(PrintAll(Listing(order, m))) == Listing(order, Flags(m))
  {
    forall i | 0 <= i < |order|
      ensures ReadAll(PrintAll(Listing(order, m)))[i] == Listing(order, Flags(m))[i]
    {
      assert order[i] in m;
      ReadPrinted(order[i], m[order[i]]);
    }
  }

  // ---------------------------------------------------------------- the mounter

  datatype S3fsMounter = S3fsMounter(
    bucketName: string, objectPath: string, endPoint: string, locConstraint: string, authType: string,
    accessKeys: string, iamEndpoint: string, kpRootKeyCrn: string,
    mountOptions: seq<string>, addMountParam: string)
  {
    /** The bucket argument: with an object path the part of the bucket below it. */
    function BucketArgument(): string {
      if objectPath == "" then bucketName
      else if objectPath[0] == '/' then bucketName + ":" + objectPath
      else bucketName + ":/" + objectPath
    }

    /** Mount between the password file and the request. */
    method MountArguments(target: string, passwdFile: string)
      returns (bucket: string, args: seq<string>, wnOp: Bindings)
      ensures bucket == BucketArgument()
      ensures args == [bucket, target] + DashO(DirectOptions(this, passwdFile)) && wnOp == WorkerMap(this, passwdFile)
    {
      if objectPath != "" {
        if "/" <= objectPath {
          bucket := bucketName + ":" + objectPath;
        } else {
          bucket := bucketName + ":/" + objectPath;
        }
      } else {
        bucket := bucketName;
      }
      args, wnOp := FormulateMountOptions(bucket, target, passwdFile);
    }

    /** formulateMountOptions: the direct argv and the worker's map. */
    method FormulateMountOptions(bucket: string, target: string, passwdFile: string)
      returns (nodeServerOp: seq<string>, workerNodeOp: Bindings)
      ensures nodeServerOp == [bucket, target] + DashO(DirectOptions(this, passwdFile))
      ensures workerNodeOp == WorkerMap(this, passwdFile)
    {
      var args, op := HeadArguments(passwdFile);
      args, op := AppendOptions(args, op, HeadOptions(this, passwdFile));
      args, op := AppendAuth(args, op, HeadOptions(this, passwdFile) + mountOptions);
      if addMountParam != "" {
        op := op["add-mount-param" := addMountParam];
      }
      return [bucket, target] + args, op;
    }

    /** What is always there, and the endpoint if a location is given. */
    method HeadArguments(passwdFile: string) returns (args: seq<string>, op: Bindings)
      ensures args == DashO(HeadOptions(this, passwdFile)) && op == HeadMap(this, passwdFile)
    {
      args := [
        "-o", "sigv2",
        "-o", "use_path_request_style",
        "-o", Assign("passwd_file", passwdFile),
        "-o", Assign("url", endPoint),
        "-o", "allow_other",
        "-o", Assign("mp_umask", "002")];
      op := map[
        "sigv2" := "true",
        "use_path_request_style" := "true",
        "passwd_file" := passwdFile,
        "url" := endPoint,
        "allow_other" := "true",
        "mp_umask" := "002"];
      DashOSix("sigv2", "use_path_request_style", Assign("passwd_file", passwdFile), Assign("url", endPoint),
               "allow_other", Assign("mp_umask", "002"));
      if locConstraint != "" {
        DashOSnoc(FixedOptions(this, passwdFile), Assign("endpoint", locConstraint));
        args := args + ["-o", Assign("endpoint", locConstraint)];
        op := op["endpoint" := locConstraint];
      }
    }

    /** The loop over the mount options; `head` are the options that args already holds. */
    method AppendOptions(args0: seq<string>, op0: Bindings, ghost head: seq<string>)
      returns (args: seq<string>, op: Bindings)
      requires args0 == DashO(head)
      ensures args == DashO(head + mountOptions) && op == op0 + Fold(SplitAll(mountOptions))
    {
      args, op := args0, op0;
      NothingYet(head, op0, mountOptions);
      for i := 0 to |mountOptions|
        invariant args == DashO(head + mountOptions[..i])
        invariant op == op0 + Fold(SplitAll(mountOptions[..i]))
      {
        OneMore(head, op0, mountOptions, i);
        args, op := AppendOption(args, op, mountOptions[i]);
      }
    }

    /** One turn of the loop. */
    method AppendOption(args0: seq<string>, op0: Bindings, val: string) returns (args: seq<string>, op: Bindings)
      ensures args == args0 + ["-o"] + [val]
      ensures op == op0[SplitSetting(val).name := SplitSetting(val).value]
    {
      args, op := args0, op0;
      args := args + ["-o"];
      args := args + [val];
      var splitVal := Split(val, '=');
      if |splitVal| == 1 {
        op := op[splitVal[0] := "true"];
      } else {
        op := op[splitVal[0] := splitVal[1]];
      }
    }

    method AppendAuth(args0: seq<string>, op0: Bindings, ghost opts: seq<string>)
      returns (args: seq<string>, op: Bindings)
      requires args0 == DashO(opts)
      ensures args == DashO(opts + AuthOptions(this)) && op == op0 + AuthMap(this)
    {
      args, op := args0, op0;
      AuthTail(this, opts, op0);
      if authType != "hmac" {
        args := args + ["-o", "ibm_iam_auth"];
        args := args + ["-o", Assign("ibm_iam_endpoint", iamEndpoint)];
        op := op["ibm_iam_auth" := "true"];
        op := op["ibm_iam_endpoint" := iamEndpoint];
      } else {
        args := args + ["-o", Assign("default_acl", "private")];
        op := op["default_acl" := "private"];
      }
    }
  }

  /** s3fs reads "bucket:/path". The argument names the bucket up to the first colon, and behind it an
      absolute path: the object path, with a slash before it only if it had none. */
  lemma BucketArgumentReads(s: S3fsMounter)
    requires ':' !in s.bucketName
    ensures s.objectPath == "" ==> s.BucketArgument() == s.bucketName
    ensures s.objectPath != "" ==>
              var parts := SplitN2(s.BucketArgument(), ':');
              && |parts| == 2 && parts[0] == s.bucketName && parts[1] != "" && parts[1][0] == '/'
              && (if s.objectPath[0] == '/' then parts[1] == s.objectPath else parts[1][1..] == s.objectPath)
  {
    if s.objectPath != "" {
      var path := if s.objectPath[0] == '/' then s.objectPath else "/" + s.objectPath;
      var a := s.BucketArgument();
      assert a == s.bucketName + [':'] + path;
      IndexOfPrefix(s.bucketName, ':', path);
      assert a[..|s.bucketName|] == s.bucketName && a[|s.bucketName| + 1..] == path;
    }
  }

  /** Each option behind its own "-o". */
  function DashO(opts: seq<string>): seq<string> {
    if opts == [] then [] else DashO(opts[..|opts| - 1]) + ["-o", opts[|opts| - 1]]
  }

  lemma DashOSnoc(opts: seq<string>, x: string)
    ensures DashO(opts + [x]) == DashO(opts) + ["-o", x]
  {
    assert (opts + [x])[..|opts + [x]| - 1] == opts;
  }

  lemma {:induction false} DashOConcat(a: seq<string>, b: seq<string>)
    ensures DashO(a + b) == DashO(a) + DashO(b)
  {
    if b == [] {
      assert a + b == a;
    } else {
      var n := |b| - 1;
      DashOConcat(a, b[..n]);
      DashOSnoc(a + b[..n], b[n]);
      assert a + b == a + b[..n] + [b[n]];
    }
  }

  lemma DashOSix(a: string, b: string, c: string, d: string, e: string, f: string)
    ensures DashO([a, b, c, d, e, f]) == ["-o", a, "-o", b, "-o", c, "-o", d, "-o", e, "-o", f]
  {
    assert [a, b, c, d, e, f][..5] == [a, b, c, d, e] && [a, b, c, d, e][..4] == [a, b, c, d];
    assert [a, b, c, d][..3] == [a, b, c] && [a, b, c][..2] == [a, b] && [a, b][..1] == [a];
    assert DashO([a]) == ["-o", a];
    assert DashO([a, b]) == ["-o", a, "-o", b];
    assert DashO([a, b, c]) == ["-o", a, "-o", b, "-o", c];
    assert DashO([a, b, c, d]) == ["-o", a, "-o", b, "-o", c, "-o", d];
    assert DashO([a, b, c, d, e]) == ["-o", a, "-o", b, "-o", c, "-o", d, "-o", e];
  }

  /** An argv tail of this form holds exactly its options: option i is entry 2i + 1. */
  lemma {:induction false} DashOShape(opts: seq<string>)
    ensures |DashO(opts)| == 2 * |opts|
    ensures forall i | 0 <= i < |opts| :: DashO(opts)[2 * i] == "-o" && DashO(opts)[2 * i + 1] == opts[i]
  {
    if opts != [] {
      DashOShape(opts[..|opts| - 1]);
    }
  }

  function FixedOptions(s: S3fsMounter, passwdFile: string): seq<string> {
    ["sigv2", "use_path_request_style", Assign("passwd_file", passwdFile), Assign("url", s.endPoint),
     "allow_other", Assign("mp_umask", "002")]
  }

  function FixedMap(s: S3fsMounter, passwdFile: string): Bindings {
    map["sigv2" := "true", "use_path_request_style" := "true", "passwd_file" := passwdFile,
        "url" := s.endPoint, "allow_other" := "true", "mp_umask" := "002"]
  }

  function HeadOptions(s: S3fsMounter, passwdFile: string): seq<string> {
    if s.locConstraint != "" then FixedOptions(s, passwdFile) + [Assign("endpoint", s.locConstraint)]
    else FixedOptions(s, passwdFile)
  }

  function HeadMap(s: S3fsMounter, passwdFile: string): Bindings {
    if s.locConstraint != "" then FixedMap(s, passwdFile)["endpoint" := s.locConstraint] else FixedMap(s, passwdFile)
  }

  function AuthOptions(s: S3fsMounter): seq<string> {
    if s.authType != "hmac" then ["ibm_iam_auth", Assign("ibm_iam_endpoint", s.iamEndpoint)]
    else [Assign("default_acl", "private")]
  }

  function AuthMap(s: S3fsMounter): Bindings {
    if s.authType != "hmac" then map["ibm_iam_auth" := "true", "ibm_iam_endpoint" := s.iamEndpoint]
    else map["default_acl" := "private"]
  }

  lemma NothingYet(head: seq<string>, base: Bindings, opts: seq<string>)
    ensures head + opts[..0] == head && base + Fold(SplitAll(opts[..0])) == base
    ensures opts[..|opts|] == opts
  {
    assert SplitAll(opts[..0]) == [];
  }

  lemma OneMore(head: seq<string>, base: Bindings, opts: seq<string>, i: nat)
    requires i < |opts|
    ensures DashO(head + opts[..i + 1]) == DashO(head + opts[..i]) + ["-o"] + [opts[i]]
    ensures var p := SplitSetting(opts[i]);
            base + Fold(SplitAll(opts[..i + 1])) == (base + Fold(SplitAll(opts[..i])))[p.name := p.value]
  {
    var p := SplitSetting(opts[i]);
    assert head + opts[..i + 1] == (head + opts[..i]) + [opts[i]];
    assert SplitAll(opts[..i + 1]) == SplitAll(opts[..i]) + [p];
    DashOSnoc(head + opts[..i], opts[i]);
    FoldSnoc(SplitAll(opts[..i]), p);
    UpdateRight(base, Fold(SplitAll(opts[..i])), p.name, p.value);
  }

  lemma AuthTail(s: S3fsMounter, opts: seq<string>, m: Bindings)
    ensures s.authType != "hmac" ==>
      && DashO(opts + AuthOptions(s)) ==
         DashO(opts) + ["-o", "ibm_iam_auth"] + ["-o", Assign("ibm_iam_endpoint", s.iamEndpoint)]
      && m + AuthMap(s) == m["ibm_iam_auth" := "true"]["ibm_iam_endpoint" := s.iamEndpoint]
    ensures s.authType == "hmac" ==>
      && DashO(opts + AuthOptions(s)) == DashO(opts) + ["-o", Assign("default_acl", "private")]
      && m + AuthMap(s) == m["default_acl" := "private"]
  {
    if s.authType != "hmac" {
      var a, b := "ibm_iam_auth", Assign("ibm_iam_endpoint", s.iamEndpoint);
      DashOSnoc(opts, a);
      DashOSnoc(opts + [a], b);
      assert opts + [a, b] == opts + [a] + [b];
    } else {
      DashOSnoc(opts, Assign("default_acl", "private"));
    }
  }

  function DirectOptions(s: S3fsMounter, passwdFile: string): seq<string> {
    HeadOptions(s, passwdFile) + s.mountOptions + AuthOptions(s)
  }

  /** The worker's copy of an option keeps only the text between the first and second '='. */
  function SplitSetting(val: string): Setting {
    var splitVal := Split(val, '=');
    if |splitVal| == 1 then Setting(splitVal[0], "true") else Setting(splitVal[0], splitVal[1])
  }

  function SplitAll(opts: seq<string>): seq<Setting> {
    seq(|opts|, i requires 0 <= i < |opts| => SplitSetting(opts[i]))
  }

  function WorkerOptions(s: S3fsMounter, passwdFile: string): Bindings {
    HeadMap(s, passwdFile) + Fold(SplitAll(s.mountOptions)) + AuthMap(s)
  }

  function WorkerMap(s: S3fsMounter, passwdFile: string): Bindings {
    if s.addMountParam != "" then WorkerOptions(s, passwdFile)["add-mount-param" := s.addMountParam]
    else WorkerOptions(s, passwdFile)
  }

  // ---------------------------------------------------------------- the back ends compared

  function UpToEquals(v: string): (t: string)
    ensures '=' !in t
    ensures '=' !in v <==> t == v
  {
    assert v[..IndexOf(v, '=')] == v ==> '=' !in v;
    v[..IndexOf(v, '=')]
  }

  lemma SplitIsTruncatedRead(val: string)
    ensures SplitSetting(val) == Setting(ReadOption(val).name, UpToEquals(ReadOption(val).value))
  {
    SplitFirst(val, '=');
    if '=' in val {
      SplitSecond(val, '=');
    } else {
      assert val[..|val|] == val;
      TrueHasNoEquals();
    }
  }

  lemma TrueHasNoEquals()
    ensures UpToEquals("true") == "true"
  {
    assert '=' !in "true";
  }

  lemma SplitIsTruncatedReading(opts: seq<string>)
    ensures Fold(SplitAll(opts)) == MapValues(UpToEquals, Meaning(opts))
  {
    forall i | 0 <= i < |opts| ensures SplitAll(opts)[i] == MapSettings(UpToEquals, ReadAll(opts))[i] {
      SplitIsTruncatedRead(opts[i]);
    }
    assert SplitAll(opts) == MapSettings(UpToEquals, ReadAll(opts));
    FoldMapValues(UpToEquals, ReadAll(opts));
  }

  lemma NoEqualsInNames()
    ensures '=' !in "sigv2" && '=' !in "use_path_request_style" && '=' !in "passwd_file" && '=' !in "url"
    ensures '=' !in "allow_other" && '=' !in "mp_umask" && '=' !in "endpoint"
    ensures '=' !in "ibm_iam_auth" && '=' !in "ibm_iam_endpoint" && '=' !in "default_acl"
  {
  }

  lemma MeaningSnoc(opts: seq<string>, x: string)
    ensures Meaning(opts + [x]) == Meaning(opts)[ReadOption(x).name := ReadOption(x).value]
  {
    assert ReadAll(opts + [x]) == ReadAll(opts) + [ReadOption(x)];
    FoldSnoc(ReadAll(opts), ReadOption(x));
  }

  /** Two bare flags, two assignments, a flag and an assignment. */
  lemma SixMeanings(a: string, b: string, c: string, cv: string, d: string, dv: string, e: string, f: string, fv: string)
    requires '=' !in a && '=' !in b && '=' !in c && '=' !in d && '=' !in e && '=' !in f
    ensures Meaning([a, b, Assign(c, cv), Assign(d, dv), e, Assign(f, fv)]) ==
            map[][a := "true"][b := "true"][c := cv][d := dv][e := "true"][f := fv]
  {
    ReadBare(a);
    ReadBare(b);
    ReadAssigned(c, cv);
    ReadAssigned(d, dv);
    ReadBare(e);
    ReadAssigned(f, fv);
    var C, D, F := Assign(c, cv), Assign(d, dv), Assign(f, fv);
    MeaningSnoc([], a);
    assert [] + [a] == [a];
    MeaningSnoc([a], b);
    assert [a] + [b] == [a, b];
    MeaningSnoc([a, b], C);
    assert [a, b] + [C] == [a, b, C];
    MeaningSnoc([a, b, C], D);
    assert [a, b, C] + [D] == [a, b, C, D];
    MeaningSnoc([a, b, C, D], e);
    assert [a, b, C, D] + [e] == [a, b, C, D, e];
    MeaningSnoc([a, b, C, D, e], F);
    assert [a, b, C, D, e] + [F] == [a, b, C, D, e, F];
  }

  lemma HeadMeaning(s: S3fsMounter, passwdFile: string)
    ensures Meaning(HeadOptions(s, passwdFile)) == HeadMap(s, passwdFile)
  {
    NoEqualsInNames();
    SixMeanings("sigv2", "use_path_request_style", "passwd_file", passwdFile, "url", s.endPoint,
                "allow_other", "mp_umask", "002");
    if s.locConstraint != "" {
      MeaningSnoc(FixedOptions(s, passwdFile), Assign("endpoint", s.locConstraint));
      ReadAssigned("endpoint", s.locConstraint);
    }
  }

  lemma FlagAndAssignment(a: string, c: string, cv: string)
    requires '=' !in a && '=' !in c
    ensures Meaning([a, Assign(c, cv)]) == map[][a := "true"][c := cv]
  {
    ReadBare(a);
    ReadAssigned(c, cv);
    MeaningSnoc([], a);
    assert [] + [a] == [a];
    MeaningSnoc([a], Assign(c, cv));
    assert [a] + [Assign(c, cv)] == [a, Assign(c, cv)];
  }

  lemma AuthMeaning(s: S3fsMounter)
    ensures Meaning(AuthOptions(s)) == AuthMap(s)
  {
    NoEqualsInNames();
    FlagAndAssignment("ibm_iam_auth", "ibm_iam_endpoint", s.iamEndpoint);
    ReadAssigned("default_acl", "private");
    MeaningSnoc([], Assign("default_acl", "private"));
    assert [] + [Assign("default_acl", "private")] == [Assign("default_acl", "private")];
  }

  /** The direct argv and the worker's map, piece by piece. */
  lemma BackEnds(s: S3fsMounter, passwdFile: string)
    ensures Meaning(DirectOptions(s, passwdFile)) == HeadMap(s, passwdFile) + Meaning(s.mountOptions) + AuthMap(s)
    ensures WorkerOptions(s, passwdFile) == HeadMap(s, passwdFile) + MapValues(UpToEquals, Meaning(s.mountOptions)) + AuthMap(s)
  {
    MeaningConcat(HeadOptions(s, passwdFile), s.mountOptions);
    MeaningConcat(HeadOptions(s, passwdFile) + s.mountOptions, AuthOptions(s));
    HeadMeaning(s, passwdFile);
    AuthMeaning(s);
    SplitIsTruncatedReading(s.mountOptions);
  }

  lemma OverlayAgrees(head: Bindings, m: Bindings, m': Bindings, tail: Bindings)
    requires m.Keys == m'.Keys
    ensures head + m + tail == head + m' + tail <==> forall k | k in m && k !in tail :: m[k] == m'[k]
  {
    var a, b := head + m + tail, head + m' + tail;
    assert a.Keys == b.Keys;
    forall k | k in a ensures a[k] == b[k] <==> (k in m && k !in tail ==> m[k] == m'[k]) {
    }
    if a == b {
      forall k | k in m && k !in tail ensures m[k] == m'[k] {
        assert k in a && a[k] == b[k];
      }
    }
  }

  /** The two back ends say the same, except for the add-mount-param entry, exactly when no mount
      option that the driver's own auth options leave standing has a value holding '='. */
  lemma BackEndsAgree(s: S3fsMounter, passwdFile: string)
    ensures WorkerOptions(s, passwdFile) == Meaning(DirectOptions(s, passwdFile)) <==>
            forall k | k in Meaning(s.mountOptions) && k !in AuthMap(s) :: '=' !in Meaning(s.mountOptions)[k]
  {
    BackEnds(s, passwdFile);
    var m := Meaning(s.mountOptions);
    OverlayAgrees(HeadMap(s, passwdFile), m, MapValues(UpToEquals, m), AuthMap(s));
  }
}
