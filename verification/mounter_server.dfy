/** The mounter service on the worker: decoding the driver's map and rebuilding the s3fs argv
    (cos-csi-mounter/server). */
module MounterServer {
  import opened GoStrings
  import opened LastWins
  import opened MountOptions
  import opened S3fsMounter

  const IAM_AUTH := "ibm_iam_auth"
  const IAM_ENDPOINT := "ibm_iam_endpoint"
  const ADD_MOUNT_PARAM := "add-mount-param"

  /** The decoded request: one value per field tag, "" where the request has none. */
  datatype S3FSArgs = S3FSArgs(fields: Bindings)

  datatype Decoded = Args(args: S3FSArgs) | UnknownField

  datatype Reply = Argv(argv: seq<string>) | DecodeError | ValidationError

  /** strictDecodeForUnknownFields into a struct with these field tags. */
  function StrictDecode(w: Bindings, tags: set<string>): Decoded {
    if w.Keys <= tags then Args(S3FSArgs(map t | t in tags :: Get(w, t))) else UnknownField
  }

  /** json.Marshal with omitempty on every field. */
  function Marshal(args: S3FSArgs): Bindings {
    map t | t in args.fields && args.fields[t] != "" :: args.fields[t]
  }

  function NonEmpty(m: Bindings): Bindings {
    map k | k in m && m[k] != "" :: m[k]
  }

  /** Decoding is all or nothing; what it accepts it keeps, except that an empty value is lost. */
  lemma DecodeMarshal(w: Bindings, tags: set<string>)
    ensures StrictDecode(w, tags).Args? <==> w.Keys <= tags
    ensures StrictDecode(w, tags).Args? ==> Marshal(StrictDecode(w, tags).args) == NonEmpty(w)
  {
  }

  function PrintArg(k: string, v: string): string {
    if Reads(v, "true") then k else Assign(k, v)
  }

  predicate Skipped(k: string, v: string) {
    k == ADD_MOUNT_PARAM || (k == CIPHER_SUITES && Reads(v, "default"))
  }

  function AuthFirst(m: Bindings): seq<string> {
    (if IAM_AUTH in m then [PrintArg(IAM_AUTH, m[IAM_AUTH])] else []) +
    (if IAM_ENDPOINT in m then [Assign(IAM_ENDPOINT, m[IAM_ENDPOINT])] else [])
  }

  function BodyStep(m: Bindings): string -> seq<string> {
    k => if k in m && !Skipped(k, m[k]) then [PrintArg(k, m[k])] else []
  }

  function Body(order: seq<string>, m: Bindings): seq<string> {
    Collect(BodyStep(m), order)
  }

  function PartStep(value: string): seq<string> {
    if TrimSpace(value) != "" then [TrimSpace(value)] else []
  }

  function AddParts(param: string): seq<string> {
    Collect(PartStep, Split(param, ','))
  }

  function ServerOptions(args: S3FSArgs, order: seq<string>): seq<string>
  {
    AuthFirst(Marshal(args)) + Body(order, Marshal(args)) + AddParts(Get(args.fields, ADD_MOUNT_PARAM))
  }

  /** PopulateArgsSlice, for any iteration order of the map left after the two IAM entries. */
  method PopulateArgsSlice(args: S3FSArgs, bucket: string, targetPath: string, order: seq<string>)
    returns (result: seq<string>)
    requires Enumerates(order, Marshal(args).Keys - {IAM_AUTH, IAM_ENDPOINT})
    ensures result == [bucket, targetPath] + DashO(ServerOptions(args, order))
  {
    EnumeratesMembers(order, Marshal(args).Keys - {IAM_AUTH, IAM_ENDPOINT});
    var m := Marshal(args);
    result := [bucket, targetPath];
    var rest;
    result, rest := AppendIam(result, m);
    result := AppendFields(result, rest, order);
    BodyOfRest(m, order);
    result := AppendParams(result, Get(args.fields, ADD_MOUNT_PARAM));
    ThreeParts([bucket, targetPath], AuthFirst(m), Body(order, m), AddParts(Get(args.fields, ADD_MOUNT_PARAM)));
  }

  /** The two IAM entries come first and leave the map. */
  method AppendIam(args: seq<string>, m: Bindings) returns (result: seq<string>, rest: Bindings)
    ensures result == args + DashO(AuthFirst(m))
    ensures rest == m - {IAM_AUTH, IAM_ENDPOINT}
  {
    AuthFirstArgs(m, args);
    result, rest := args, m;
    if IAM_AUTH in rest {
      var val := rest[IAM_AUTH];
      if Reads(val, "true") {
        result := result + ["-o", IAM_AUTH];
      } else {
        result := result + ["-o", Assign(IAM_AUTH, val)];
      }
      rest := rest - {IAM_AUTH};
    }
    if IAM_ENDPOINT in rest {
      result := result + ["-o", Assign(IAM_ENDPOINT, rest[IAM_ENDPOINT])];
      rest := rest - {IAM_ENDPOINT};
    }
  }

  /** The loop over the map. */
  method AppendFields(args: seq<string>, m: Bindings, order: seq<string>) returns (result: seq<string>)
    requires forall k | k in order :: k in m
    ensures result == args + DashO(Body(order, m))
  {
    result := args;
    for i := 0 to |order|
      invariant result == args + DashO(Body(order[..i], m))
    {
      var k := order[i];
      var v := m[k];
      FieldTurn(m, order, i);
      if k == ADD_MOUNT_PARAM {
        continue;
      }
      if k == CIPHER_SUITES && Reads(v, "default") {
        continue;
      }
      Push(args, DashO(Body(order[..i], m)), PrintArg(k, v));
      result := result + ["-o"];
      if Reads(v, "true") {
        result := result + [k];
      } else {
        result := result + [Assign(k, v)];
      }
    }
    assert order[..|order|] == order;
  }

  /** The loop over the comma-separated parameters. */
  method AppendParams(args: seq<string>, param: string) returns (result: seq<string>)
    ensures result == args + DashO(AddParts(param))
  {
    result := args;
    if param == "" {
      NothingToAdd();
      return;
    }
    var paramSlice := Split(param, ',');
    for i := 0 to |paramSlice|
      invariant result == args + DashO(Collect(PartStep, paramSlice[..i]))
    {
      ParamTurn(paramSlice, i);
      var value := TrimSpace(paramSlice[i]);
      if value != "" {
        Push(args, DashO(Collect(PartStep, paramSlice[..i])), value);
        result := result + ["-o", value];
      }
    }
    assert paramSlice[..|paramSlice|] == paramSlice;
  }

  lemma FieldTurn(m: Bindings, order: seq<string>, i: nat)
    requires i < |order| && order[i] in m
    ensures var k, v := order[i], m[order[i]];
            DashO(Body(order[..i + 1], m)) ==
            DashO(Body(order[..i], m)) + (if Skipped(k, v) then [] else ["-o", PrintArg(k, v)])
  {
    OneTurn(BodyStep(m), order, i);
    DashOOne(PrintArg(order[i], m[order[i]]));
  }

  lemma ParamTurn(parts: seq<string>, i: nat)
    requires i < |parts|
    ensures var value := TrimSpace(parts[i]);
            DashO(Collect(PartStep, parts[..i + 1])) ==
            DashO(Collect(PartStep, parts[..i])) + (if value != "" then ["-o", value] else [])
  {
    OneTurn(PartStep, parts, i);
    DashOOne(TrimSpace(parts[i]));
  }

  lemma Push(a: seq<string>, d: seq<string>, x: string)
    ensures a + d + ["-o"] + [x] == a + (d + ["-o", x])
    ensures a + d + ["-o", x] == a + (d + ["-o", x])
  {
  }

  lemma ThreeParts(pre: seq<string>, a: seq<string>, b: seq<string>, c: seq<string>)
    ensures pre + DashO(a) + DashO(b) + DashO(c) == pre + DashO(a + b + c)
  {
    DashOConcat(a, b);
    DashOConcat(a + b, c);
  }

  lemma BodyOfRest(m: Bindings, order: seq<string>)
    requires forall k | k in order :: k in m && k !in {IAM_AUTH, IAM_ENDPOINT}
    ensures Body(order, m - {IAM_AUTH, IAM_ENDPOINT}) == Body(order, m)
  {
    SameTurns(BodyStep(m - {IAM_AUTH, IAM_ENDPOINT}), BodyStep(m), order);
  }

  lemma {:induction false} SameTurns(f: string -> seq<string>, g: string -> seq<string>, xs: seq<string>)
    requires forall x | x in xs :: f(x) == g(x)
    ensures Collect(f, xs) == Collect(g, xs)
  {
    if xs != [] {
      SameTurns(f, g, xs[..|xs| - 1]);
    }
  }

  lemma OneTurn(f: string -> seq<string>, xs: seq<string>, i: nat)
    requires i < |xs|
    ensures DashO(Collect(f, xs[..i + 1])) == DashO(Collect(f, xs[..i])) + DashO(f(xs[i]))
  {
    CollectStep(f, xs, i);
    DashOConcat(Collect(f, xs[..i]), f(xs[i]));
  }

  lemma DashOOne(x: string)
    ensures DashO([x]) == ["-o", x]
  {
    DashOSnoc([], x);
    assert [] + [x] == [x];
  }

  lemma AuthFirstArgs(m: Bindings, args: seq<string>)
    ensures IAM_AUTH != IAM_ENDPOINT
    ensures var first := if IAM_AUTH in m then args + ["-o", PrintArg(IAM_AUTH, m[IAM_AUTH])] else args;
            args + DashO(AuthFirst(m)) ==
            if IAM_ENDPOINT in m then first + ["-o", Assign(IAM_ENDPOINT, m[IAM_ENDPOINT])] else first
  {
    AuthNamesDiffer();
    var a := if IAM_AUTH in m then [PrintArg(IAM_AUTH, m[IAM_AUTH])] else [];
    var b := if IAM_ENDPOINT in m then [Assign(IAM_ENDPOINT, m[IAM_ENDPOINT])] else [];
    DashOConcat(a, b);
    if IAM_AUTH in m {
      DashOOne(PrintArg(IAM_AUTH, m[IAM_AUTH]));
    }
    if IAM_ENDPOINT in m {
      DashOOne(Assign(IAM_ENDPOINT, m[IAM_ENDPOINT]));
    }
  }

  lemma NothingToAdd()
    ensures AddParts("") == []
  {
    assert IndexOf("", ',') == 0;
    assert Split("", ',') == [""];
    assert TrimSpace("") == "";
    assert Collect(PartStep, [""][..0]) == [];
  }

  /** ParseMounterArgs for s3fs: unknown fields are refused before anything is validated, and only
      a valid request is turned into an argv. `valid` is what Validate answers. */
  method ParseS3fsArgs(w: Bindings, tags: set<string>, valid: bool, bucket: string, path: string, order: seq<string>)
    returns (r: Reply)
    requires Enumerates(order, NonEmpty(w).Keys - {IAM_AUTH, IAM_ENDPOINT})
    ensures r.DecodeError? <==> !(w.Keys <= tags)
    ensures r.ValidationError? <==> w.Keys <= tags && !valid
    ensures r.Argv? ==>
      && Marshal(StrictDecode(w, tags).args) == NonEmpty(w)
      && r.argv == [bucket, path] + DashO(ServerOptions(StrictDecode(w, tags).args, order))
  {
    DecodeMarshal(w, tags);
    match StrictDecode(w, tags)
    case UnknownField =>
      return DecodeError;
    case Args(args) =>
      if !valid {
        return ValidationError;
      }
      var argv := PopulateArgsSlice(args, bucket, path, order);
      return Argv(argv);
  }

  // ---------------------------------------------------------------- what the rebuilt argv means

  function Norm(v: string): string {
    if Reads(v, "true") then "true" else v
  }

  /** The meaning of an option list where `true` in any case is a bare flag. */
  function NormMeaning(opts: seq<string>): Bindings {
    MapValues(Norm, Meaning(opts))
  }

  /** What the service hands to s3fs out of the decoded fields. */
  function Emitted(m: Bindings): Bindings {
    map k | k in m && !Skipped(k, m[k]) :: m[k]
  }

  lemma NormTwice(v: string)
    ensures Norm(Norm(v)) == Norm(v)
  {
    assert TrimSpace("true") == "true" && ToLower("true") == "true";
  }

  lemma ReadArg(k: string, v: string)
    requires '=' !in k
    ensures ReadOption(PrintArg(k, v)) == Setting(k, Norm(v))
  {
    ReadBare(k);
    ReadAssigned(k, v);
  }

  function Restricted(order: seq<string>, want: Bindings): Bindings {
    map k | k in order && k in want :: want[k]
  }

  lemma RestrictedSnoc(order: seq<string>, k: string, want: Bindings)
    ensures Restricted(order + [k], want) == if k in want then Restricted(order, want)[k := want[k]] else Restricted(order, want)
  {
  }

  /** A loop that prints at most one setting per name means the map it prints. */
  lemma {:induction false} CollectMeaning(f: string -> seq<string>, order: seq<string>, want: Bindings)
    requires forall k | k in order :: k !in want ==> f(k) == []
    requires forall k | k in order && k in want :: |f(k)| == 1 && ReadOption(f(k)[0]) == Setting(k, want[k])
    ensures Meaning(Collect(f, order)) == Restricted(order, want)
  {
    if order != [] {
      var n := |order| - 1;
      var k := order[n];
      CollectMeaning(f, order[..n], want);
      OneMoreMeaning(Collect(f, order[..n]), f(k), k, want);
      RestrictedSnoc(order[..n], k, want);
      assert order == order[..n] + [k];
    }
  }

  lemma OneMoreMeaning(before: seq<string>, more: seq<string>, k: string, want: Bindings)
    requires if k in want then |more| == 1 && ReadOption(more[0]) == Setting(k, want[k]) else more == []
    ensures Meaning(before + more) == if k in want then Meaning(before)[k := want[k]] else Meaning(before)
  {
    if k in want {
      MeaningSnoc(before, more[0]);
      assert more == [more[0]];
    } else {
      assert before + more == before;
    }
  }

  lemma BodyMeaning(order: seq<string>, m: Bindings)
    requires forall k | k in order :: k in m && '=' !in k
    ensures Meaning(Body(order, m)) == map k | k in order && !Skipped(k, m[k]) :: Norm(m[k])
  {
    var want := map k | k in m && !Skipped(k, m[k]) :: Norm(m[k]);
    forall k | k in order && k in want
      ensures |BodyStep(m)(k)| == 1 && ReadOption(BodyStep(m)(k)[0]) == Setting(k, want[k])
    {
      ReadArg(k, m[k]);
    }
    CollectMeaning(BodyStep(m), order, want);
  }

  lemma AuthNamesDiffer()
    ensures IAM_AUTH != IAM_ENDPOINT
    ensures IAM_AUTH != ADD_MOUNT_PARAM && IAM_AUTH != CIPHER_SUITES
    ensures IAM_ENDPOINT != ADD_MOUNT_PARAM && IAM_ENDPOINT != CIPHER_SUITES
    ensures '=' !in IAM_AUTH && '=' !in IAM_ENDPOINT
  {
    assert IAM_AUTH[8] == 'a' && IAM_ENDPOINT[8] == 'e' && IAM_AUTH[0] == IAM_ENDPOINT[0] == 'i';
    assert ADD_MOUNT_PARAM[0] == 'a' && CIPHER_SUITES[0] == 'c';
    NoEqualsInNames();
  }

  /** The printer's own flag, then an assignment, either of them only if set. */
  lemma FlagThenAssignment(p: string, q: string, m: Bindings)
    requires p != q && '=' !in p && '=' !in q
    ensures var a := if p in m then [PrintArg(p, m[p])] else [];
            var b := if q in m then [Assign(q, m[q])] else [];
            MapValues(Norm, Meaning(a + b)) == map k | k in m && (k == p || k == q) :: Norm(m[k])
  {
    var a := if p in m then [PrintArg(p, m[p])] else [];
    var b := if q in m then [Assign(q, m[q])] else [];
    var first := if p in m then map[p := Norm(m[p])] else map[];
    ReadArg(p, Get(m, p));
    ReadAssigned(q, Get(m, q));
    OptionalMeaning(p, p in m, PrintArg(p, Get(m, p)), Norm(Get(m, p)), []);
    OptionalMeaning(q, q in m, Assign(q, Get(m, q)), Get(m, q), a);
    NormTwice(Get(m, p));
    assert Meaning([]) == map[] && [] + a == a;
    assert Meaning(a) == first;
    OverlayOne(first, p, q, m);
  }

  lemma OverlayOne(first: Bindings, p: string, q: string, m: Bindings)
    requires p != q
    requires first == if p in m then map[p := Norm(m[p])] else map[]
    requires p in m ==> Norm(Norm(m[p])) == Norm(m[p])
    ensures MapValues(Norm, if q in m then first[q := m[q]] else first) == map k | k in m && (k == p || k == q) :: Norm(m[k])
  {
  }

  lemma OptionalMeaning(k: string, present: bool, x: string, v: string, before: seq<string>)
    requires present ==> ReadOption(x) == Setting(k, v)
    ensures Meaning(before + (if present then [x] else [])) == if present then Meaning(before)[k := v] else Meaning(before)
  {
    MeaningSnoc(before, x);
    assert before + [] == before;
  }

  lemma AuthFirstMeaning(m: Bindings)
    ensures MapValues(Norm, Meaning(AuthFirst(m))) == map k | k in m && (k == IAM_AUTH || k == IAM_ENDPOINT) :: Norm(m[k])
  {
    AuthNamesDiffer();
    FlagThenAssignment(IAM_AUTH, IAM_ENDPOINT, m);
  }

  lemma MapValuesPlus(a: Bindings, b: Bindings)
    ensures MapValues(Norm, a + b) == MapValues(Norm, a) + MapValues(Norm, b)
  {
  }

  lemma NormBody(order: seq<string>, m: Bindings)
    requires forall k | k in order :: k in m && '=' !in k
    ensures NormMeaning(Body(order, m)) == map k | k in order && !Skipped(k, m[k]) :: Norm(m[k])
  {
    BodyMeaning(order, m);
    forall k | k in order ensures Norm(Norm(m[k])) == Norm(m[k]) {
      NormTwice(m[k]);
    }
  }

  /** Whatever order the map was walked in, the argv means the emitted fields overlaid with the
      additional parameters. */
  lemma ServerMeaning(args: S3FSArgs, order: seq<string>)
    requires Enumerates(order, Marshal(args).Keys - {IAM_AUTH, IAM_ENDPOINT})
    requires forall k | k in Marshal(args) :: '=' !in k
    ensures NormMeaning(ServerOptions(args, order)) ==
            MapValues(Norm, Emitted(Marshal(args))) + NormMeaning(AddParts(Get(args.fields, ADD_MOUNT_PARAM)))
  {
    var m := Marshal(args);
    EnumeratesMembers(order, m.Keys - {IAM_AUTH, IAM_ENDPOINT});
    var a, b, c := AuthFirst(m), Body(order, m), AddParts(Get(args.fields, ADD_MOUNT_PARAM));
    MeaningConcat(a, b);
    MeaningConcat(a + b, c);
    MapValuesPlus(Meaning(a), Meaning(b));
    MapValuesPlus(Meaning(a + b), Meaning(c));
    AuthFirstMeaning(m);
    NormBody(order, m);
    assert NormMeaning(a) + NormMeaning(b) == MapValues(Norm, Emitted(m)) by {
      AuthNamesDiffer();
      EmittedInTwoParts(m, order);
    }
  }

  lemma EmittedInTwoParts(m: Bindings, order: seq<string>)
    requires forall k :: k in order <==> k in m && k != IAM_AUTH && k != IAM_ENDPOINT
    ensures (map k | k in m && (k == IAM_AUTH || k == IAM_ENDPOINT) :: Norm(m[k])) +
            (map k | k in order && !Skipped(k, m[k]) :: Norm(m[k])) == MapValues(Norm, Emitted(m))
  {
    AuthNamesDiffer();
  }

  // ---------------------------------------------------------------- shape and order

  /** Two walks of the same map print the same options, each as often. */
  lemma OrderIndependence(args: S3FSArgs, order: seq<string>, order': seq<string>)
    requires Enumerates(order, Marshal(args).Keys - {IAM_AUTH, IAM_ENDPOINT})
    requires Enumerates(order', Marshal(args).Keys - {IAM_AUTH, IAM_ENDPOINT})
    ensures multiset(ServerOptions(args, order)) == multiset(ServerOptions(args, order'))
  {
    CollectPermuted(BodyStep(Marshal(args)), order, order');
  }

  /** In every order each field that is not skipped is in the argv, once for its key as a bare flag if it
      reads "true" in any case, else as an assignment; the IAM endpoint always as an assignment. */
  lemma EachFieldIsPrinted(args: S3FSArgs, order: seq<string>, k: string)
    requires Enumerates(order, Marshal(args).Keys - {IAM_AUTH, IAM_ENDPOINT})
    requires k in args.fields && args.fields[k] != "" && k != ADD_MOUNT_PARAM
    requires !(k == CIPHER_SUITES && Reads(args.fields[k], "default"))
    ensures (if Reads(args.fields[k], "true") && k != IAM_ENDPOINT then k else k + "=" + args.fields[k])
            in ServerOptions(args, order)
  {
    var m := Marshal(args);
    AuthNamesDiffer();
    EnumeratesMembers(order, m.Keys - {IAM_AUTH, IAM_ENDPOINT});
    if k != IAM_AUTH && k != IAM_ENDPOINT {
      CollectContains(BodyStep(m), order, k, PrintArg(k, m[k]));
    } else {
      assert (if k == IAM_AUTH then PrintArg(k, m[k]) else Assign(k, m[k])) in AuthFirst(m);
    }
  }

  /** s3fs reads its arguments left to right, so the IAM endpoint must follow the IAM flag: the flag
      is option 0, the endpoint is the next, and neither is named again by the fields. */
  lemma IamFirst(args: S3FSArgs, order: seq<string>)
    requires Enumerates(order, Marshal(args).Keys - {IAM_AUTH, IAM_ENDPOINT})
    requires IAM_AUTH in Marshal(args) && IAM_ENDPOINT in Marshal(args)
    requires forall k | k in Marshal(args) :: '=' !in k
    ensures |ServerOptions(args, order)| >= 2
    ensures ReadOption(ServerOptions(args, order)[0]).name == IAM_AUTH
    ensures ReadOption(ServerOptions(args, order)[1]) == Setting(IAM_ENDPOINT, Marshal(args)[IAM_ENDPOINT])
    ensures forall x | x in Body(order, Marshal(args)) :: ReadOption(x).name != IAM_AUTH && ReadOption(x).name != IAM_ENDPOINT
  {
    var m := Marshal(args);
    EnumeratesMembers(order, m.Keys - {IAM_AUTH, IAM_ENDPOINT});
    ReadArg(IAM_AUTH, m[IAM_AUTH]);
    ReadAssigned(IAM_ENDPOINT, m[IAM_ENDPOINT]);
    var first, second := PrintArg(IAM_AUTH, m[IAM_AUTH]), Assign(IAM_ENDPOINT, m[IAM_ENDPOINT]);
    assert AuthFirst(m) == [first, second];
    TwoAhead(first, second, Body(order, m), AddParts(Get(args.fields, ADD_MOUNT_PARAM)));
    forall x | x in Body(order, m) ensures ReadOption(x).name in order {
      BodyNames(order, m, x);
    }
  }

  lemma TwoAhead(x: string, y: string, b: seq<string>, c: seq<string>)
    ensures |[x, y] + b + c| >= 2 && ([x, y] + b + c)[0] == x && ([x, y] + b + c)[1] == y
  {
  }

  lemma BodyNames(order: seq<string>, m: Bindings, x: string)
    requires x in Body(order, m)
    requires forall k | k in m :: '=' !in k
    ensures ReadOption(x).name in order
  {
    var k := CollectedFrom(BodyStep(m), order, x);
    ReadArg(k, m[k]);
  }
}
