/** How StorageClass options and the secret's mountOptions lines become s3fs options
    (pkg/mounter/mounter-s3fs.go). */
module MountOptions {
  import opened GoStrings
  import opened LastWins
  import opened Wrappers

  const CIPHER_SUITES := "cipher_suites"

  function Get(m: Bindings, k: string): string {
    if k in m then m[k] else ""
  }

  // ---------------------------------------------------------------- parsing

  /** One option string: None when it is blank or has no name. */
  function ParseOption(opt: string): Option<Setting> {
    var opt := TrimSpace(opt);
    if opt == "" then None
    else
      var opts := SplitN2(opt, '=');
      var name := TrimSpace(opts[0]);
      if name == "" then None
      else Some(Setting(name, if |opts| == 2 then TrimSpace(opts[1]) else name))
  }

  function ParseStep(opt: string): seq<Setting> {
    match ParseOption(opt) case None => [] case Some(p) => [p]
  }

  function ParseAll(options: seq<string>): seq<Setting> {
    Collect(ParseStep, options)
  }

  function Parsed(options: seq<string>): Bindings {
    Fold(ParseAll(options))
  }

  function Known(m: Bindings, names: set<string>): Bindings {
    map k | k in m && k in names :: m[k]
  }

  function Unknown(m: Bindings, names: set<string>): Bindings {
    map k | k in m && k !in names :: m[k]
  }

  lemma PartitionUpdate(m: Bindings, k: string, v: string, names: set<string>)
    ensures Known(m[k := v], names) == if k in names then Known(m, names)[k := v] else Known(m, names)
    ensures Unknown(m[k := v], names) == if k in names then Unknown(m, names) else Unknown(m, names)[k := v]
  {
  }

  lemma PartitionOverlay(a: Bindings, b: Bindings, names: set<string>)
    ensures Known(a, names) + Known(b, names) == Known(a + b, names)
    ensures Unknown(a, names) + Unknown(b, names) == Unknown(a + b, names)
  {
  }

  lemma Partition(m: Bindings, names: set<string>)
    ensures Known(m, names).Keys !! Unknown(m, names).Keys
    ensures Known(m, names) + Unknown(m, names) == m
  {
  }

  /** Reading one more option is one more map update on the side its name belongs to. */
  lemma ClassifyOne(options: seq<string>, i: nat, names: set<string>)
    requires i < |options|
    ensures var m, m' := Parsed(options[..i]), Parsed(options[..i + 1]);
            match ParseOption(options[i])
            case None => m' == m
            case Some(p) =>
              && Known(m', names) == (if p.name in names then Known(m, names)[p.name := p.value] else Known(m, names))
              && Unknown(m', names) == (if p.name in names then Unknown(m, names) else Unknown(m, names)[p.name := p.value])
  {
    CollectStep(ParseStep, options, i);
    var ps := ParseAll(options[..i]);
    if ParseOption(options[i]).None? {
      assert ps + [] == ps;
    } else {
      var p := ParseOption(options[i]).value;
      FoldSnoc(ps, p);
      PartitionUpdate(Fold(ps), p.name, p.value, names);
    }
  }

  /** The maps that classifyMountOptions fills in place. */
  class OptionMaps {
    var known: Bindings
    var unknown: Bindings

    constructor ()
      ensures known == map[] && unknown == map[]
    {
      known, unknown := map[], map[];
    }

    /** classifyMountOptions */
    method Classify(options: seq<string>, knownOptions: set<string>)
      modifies this
      ensures known == old(known) + Known(Parsed(options), knownOptions)
      ensures unknown == old(unknown) + Unknown(Parsed(options), knownOptions)
    {
      for i := 0 to |options|
        invariant known == old(known) + Known(Parsed(options[..i]), knownOptions)
        invariant unknown == old(unknown) + Unknown(Parsed(options[..i]), knownOptions)
      {
        ClassifyOne(options, i, knownOptions);
        var opt := TrimSpace(options[i]);
        if opt == "" {
          continue;
        }
        var opts := SplitN2(opt, '=');
        var optName := TrimSpace(opts[0]);
        if optName == "" {
          continue;
        }
        var optValue := if |opts| == 2 then TrimSpace(opts[1]) else optName;
        UpdateRight(old(known), Known(Parsed(options[..i]), knownOptions), optName, optValue);
        UpdateRight(old(unknown), Unknown(Parsed(options[..i]), knownOptions), optName, optValue);
        if optName in knownOptions {
          known := known[optName := optValue];
        } else {
          unknown := unknown[optName := optValue];
        }
      }
      assert options[..|options|] == options;
    }
  }

  /** Classifying in layers is one left-to-right reading: the later layer overrides name by name,
      and the two maps partition what was read, so no named option is lost. */
  lemma LayeredClassification(base: seq<string>, over: seq<string>, names: set<string>)
    ensures Parsed(base + over) == Parsed(base) + Parsed(over)
    ensures Known(Parsed(base), names) + Known(Parsed(over), names) == Known(Parsed(base + over), names)
    ensures Unknown(Parsed(base), names) + Unknown(Parsed(over), names) == Unknown(Parsed(base + over), names)
    ensures Known(Parsed(base + over), names).Keys !! Unknown(Parsed(base + over), names).Keys
    ensures Known(Parsed(base + over), names) + Unknown(Parsed(base + over), names) == Parsed(base + over)
  {
    CollectConcat(ParseStep, base, over);
    FoldConcat(ParseAll(base), ParseAll(over));
    PartitionOverlay(Parsed(base), Parsed(over), names);
    Partition(Parsed(base + over), names);
  }

  // ---------------------------------------------------------------- printing

  /** Names as the parser makes them. */
  predicate WellFormedName(k: string) {
    k != "" && Trimmed(k) && '=' !in k
  }

  predicate WellFormed(m: Bindings) {
    forall k | k in m :: WellFormedName(k) && Trimmed(m[k])
  }

  function Print(k: string, v: string): string {
    if k != v then k + "=" + v else v
  }

  function PrintAll(ps: seq<Setting>): seq<string> {
    seq(|ps|, i requires 0 <= i < |ps| => Print(ps[i].name, ps[i].value))
  }

  /** A default is printed only when it is not blank and the option is not set. */
  function PrintDefaults(order: seq<string>, defaults: Bindings, m: Bindings): seq<string> {
    if order == [] then []
    else
      var n := |order| - 1;
      var k := order[n];
      var before := PrintDefaults(order[..n], defaults, m);
      if Get(defaults, k) != "" && k !in m then before + [k + "=" + Get(defaults, k)] else before
  }

  function OptionsSlice(m: Bindings, order: seq<string>, defaults: Bindings, defaultOrder: seq<string>): seq<string>
    requires forall k | k in order :: k in m
  {
    PrintAll(Listing(order, m)) + PrintDefaults(defaultOrder, defaults, m)
  }

  /** buildMountOptionsSlice, for any iteration orders of its two maps. */
  method BuildMountOptionsSlice(m: Bindings, defaults: Bindings, order: seq<string>, defaultOrder: seq<string>)
    returns (updatedOptions: seq<string>)
    requires Enumerates(order, m.Keys) && Enumerates(defaultOrder, defaults.Keys)
    ensures forall k :: k in order <==> k in m
    ensures forall k :: k in defaultOrder <==> k in defaults
    ensures updatedOptions == OptionsSlice(m, order, defaults, defaultOrder)
  {
    EnumeratesMembers(order, m.Keys);
    EnumeratesMembers(defaultOrder, defaults.Keys);
    updatedOptions := PrintOptions(m, order);
    updatedOptions := AppendDefaults(updatedOptions, m, defaults, defaultOrder);
  }

  /** The loop over the options. */
  method PrintOptions(m: Bindings, order: seq<string>) returns (updatedOptions: seq<string>)
    requires forall k | k in order :: k in m
    ensures updatedOptions == PrintAll(Listing(order, m))
  {
    updatedOptions := [];
    for i := 0 to |order|
      invariant updatedOptions == PrintAll(Listing(order, m))[..i]
    {
      var key := order[i];
      var val := m[key];
      if key != val {
        updatedOptions := updatedOptions + [key + "=" + val];
      } else {
        updatedOptions := updatedOptions + [val];
      }
    }
    assert updatedOptions == PrintAll(Listing(order, m));
  }

  /** The loop over the defaults. */
  method AppendDefaults(options: seq<string>, m: Bindings, defaults: Bindings, defaultOrder: seq<string>)
    returns (updatedOptions: seq<string>)
    requires forall k | k in defaultOrder :: k in defaults
    ensures updatedOptions == options + PrintDefaults(defaultOrder, defaults, m)
  {
    updatedOptions := options;
    for i := 0 to |defaultOrder|
      invariant updatedOptions == options + PrintDefaults(defaultOrder[..i], defaults, m)
    {
      assert defaultOrder[..i + 1][..i] == defaultOrder[..i];
      var key := defaultOrder[i];
      if defaults[key] != "" {
        if key !in m {
          updatedOptions := updatedOptions + [key + "=" + defaults[key]];
        }
      }
    }
    assert defaultOrder[..|defaultOrder|] == defaultOrder;
  }

  /** buildAddMountParam */
  method BuildAddMountParam(unknown: Bindings, order: seq<string>) returns (param: string)
    requires Enumerates(order, unknown.Keys)
    ensures forall k :: k in order <==> k in unknown
    ensures param == Join(PrintAll(Listing(order, unknown)), ',')
  {
    EnumeratesMembers(order, unknown.Keys);
    if |unknown| == 0 {
      assert unknown.Keys == {} && order == [] by {
        assert |multiset(order)| == 0;
      }
      return "";
    }
    var list := [];
    for i := 0 to |order|
      invariant list == PrintAll(Listing(order, unknown))[..i]
    {
      var optName, optValue := order[i], unknown[order[i]];
      if optName == optValue {
        list := list + [optName];
      } else {
        list := list + [optName + "=" + optValue];
      }
    }
    assert list == PrintAll(Listing(order, unknown));
    return Join(list, ',');
  }

  lemma ParsePrinted(k: string, v: string)
    requires WellFormedName(k) && Trimmed(v)
    ensures Trimmed(Print(k, v)) && Print(k, v) != ""
    ensures ParseOption(Print(k, v)) == Some(Setting(k, v))
  {
    if k == v {
      assert IndexOf(k, '=') == |k|;
    } else {
      var s := Print(k, v);
      IndexOfPrefix(k, '=', v);
      assert s == k + ['='] + v;
      assert s[..|k|] == k && s[|k| + 1..] == v;
      assert s[|s| - 1] == if v == "" then '=' else v[|v| - 1];
    }
  }

  /** However an option is spaced, it sets its name to its value; without '=' it is a flag. */
  lemma ParseSpaced(a: string, k: string, b: string, c: string, v: string, d: string)
    requires AllSpace(a) && AllSpace(b) && AllSpace(c) && AllSpace(d) && WellFormedName(k) && Trimmed(v)
    ensures ParseOption(a + k + b) == Some(Setting(k, k))
    ensures ParseOption(a + k + b + ['='] + c + v + d) == Some(Setting(k, v))
  {
    TrimPadded(a, k, b);
    assert IndexOf(k, '=') == |k|;
    TrimPadded([], k, b);
    assert [] + k + b == k + b;
    ParseSpacedAssignment(a, k, b, c, v, d);
  }

  lemma ParseSpacedAssignment(a: string, k: string, b: string, c: string, v: string, d: string)
    requires AllSpace(a) && AllSpace(b) && AllSpace(c) && AllSpace(d) && WellFormedName(k) && Trimmed(v)
    requires TrimSpace(k + b) == k
    ensures ParseOption(a + k + b + ['='] + c + v + d) == Some(Setting(k, v))
  {
    var core, rest := TrimmedAssignment(k, b, c, v, d);
    Behind(a, k, b, c, v, d);
    assert a + core + rest == a + (core + rest);
    TrimPadded(a, core, rest);
    var right := core[|k + b| + 1..];
    assert core == k + b + ['='] + right;
    NoEqualsInSpaces(k, b);
    IndexOfPrefix(k + b, '=', right);
    assert core[..|k + b|] == k + b;
    if v == "" {
      TrimPadded([], v, []);
      assert right == [];
    } else {
      TrimPadded(c, v, []);
      assert right == c + v + [];
    }
  }

  lemma Behind(a: string, k: string, b: string, c: string, v: string, d: string)
    ensures a + k + b + ['='] + c + v + d == a + (k + b + ['='] + c + v + d)
  {
  }

  lemma NoEqualsInSpaces(k: string, b: string)
    requires '=' !in k && AllSpace(b)
    ensures '=' !in k + b
  {
    assert !IsSpace('=');
  }

  /** The trimmed form of "k b = c v d", and the spaces that are trimmed off at its end. */
  lemma TrimmedAssignment(k: string, b: string, c: string, v: string, d: string) returns (core: string, rest: string)
    requires AllSpace(c) && AllSpace(d) && WellFormedName(k) && Trimmed(v)
    ensures core + rest == k + b + ['='] + c + v + d && AllSpace(rest)
    ensures Trimmed(core) && core == k + b + ['='] + (if v == "" then [] else c + v)
  {
    if v == "" {
      core, rest := k + b + ['='], c + d;
      assert core[|core| - 1] == '=' && core[0] == k[0];
    } else {
      core, rest := k + b + ['='] + c + v, d;
      assert core[|core| - 1] == v[|v| - 1] && core[0] == k[0];
    }
  }

  /** The options that are dropped are exactly those with nothing but spaces before the first '='. */
  lemma DroppedExactly(opt: string)
    ensures ParseOption(opt).None? <==> AllSpace(opt[..IndexOf(opt, '=')])
  {
    var t := TrimSpace(opt);
    BlankHead(opt);
    TrimsToNothing(t[..IndexOf(t, '=')]);
    if t == "" {
      assert AllSpace(t);
    } else if IndexOf(t, '=') == |t| {
      assert t[..|t|] == t;
    }
  }

  lemma TrimsToNothing(s: string)
    ensures TrimSpace(s) == "" <==> AllSpace(s)
  {
    if AllSpace(s) {
      TrimPadded(s, "", "");
      assert s + "" + "" == s;
    } else {
      var c :| c in s && !IsSpace(c);
      TrimKeeps(s, c);
    }
  }

  /** Trimming an option does not change whether it has a name. */
  lemma BlankHead(opt: string)
    ensures AllSpace(opt[..IndexOf(opt, '=')]) <==> AllSpace(TrimSpace(opt)[..IndexOf(TrimSpace(opt), '=')])
  {
    var before, after := TrimmedParts(opt);
    var t := TrimSpace(opt);
    if '=' in t {
      var j := IndexOf(t, '=');
      HeadBehindSpaces(before, t[..j], t[j + 1..] + after);
      Around(before, t, j, after);
    } else {
      assert '=' !in opt by {
        assert !IsSpace('=');
      }
      assert opt[..|opt|] == opt && t[..|t|] == t;
    }
  }

  lemma Around(before: string, t: string, j: nat, after: string)
    requires j < |t| && t[j] == '='
    ensures before + t + after == before + t[..j] + ['='] + (t[j + 1..] + after)
  {
    assert t == t[..j] + ['='] + t[j + 1..];
  }

  lemma HeadBehindSpaces(before: string, head: string, rest: string)
    requires AllSpace(before) && '=' !in head
    ensures var s := before + head + ['='] + rest;
            AllSpace(s[..IndexOf(s, '=')]) <==> AllSpace(head)
  {
    assert !IsSpace('=');
    var s := before + head + ['='] + rest;
    IndexOfPrefix(before + head, '=', rest);
    assert s[..|before + head|] == before + head;
  }

  lemma {:induction false} TrimmedLeftPart(s: string) returns (before: string)
    ensures s == before + TrimLeft(s) && AllSpace(before)
  {
    if s != "" && IsSpace(s[0]) {
      before := TrimmedLeftPart(s[1..]);
      before := [s[0]] + before;
    } else {
      before := "";
    }
  }

  lemma {:induction false} TrimmedRightPart(s: string) returns (after: string)
    ensures s == TrimRight(s) + after && AllSpace(after)
  {
    if s != "" && IsSpace(s[|s| - 1]) {
      after := TrimmedRightPart(s[..|s| - 1]);
      after := after + [s[|s| - 1]];
    } else {
      after := "";
    }
  }

  lemma TrimmedParts(s: string) returns (before: string, after: string)
    ensures s == before + TrimSpace(s) + after && AllSpace(before) && AllSpace(after)
  {
    before := TrimmedLeftPart(s);
    after := TrimmedRightPart(TrimLeft(s));
  }

  lemma ParseAllPrinted(ps: seq<Setting>)
    requires forall p | p in ps :: WellFormedName(p.name) && Trimmed(p.value)
    ensures ParseAll(PrintAll(ps)) == ps
  {
    forall i | 0 <= i < |ps| ensures ParseStep(PrintAll(ps)[i]) == [ps[i]] {
      ParsePrinted(ps[i].name, ps[i].value);
    }
    CollectElementwise(ParseStep, PrintAll(ps), ps);
  }

  lemma ParseOptionWellFormed(opt: string)
    ensures forall p | p in ParseStep(opt) :: WellFormedName(p.name) && Trimmed(p.value)
  {
    TrimKeeps(SplitN2(TrimSpace(opt), '=')[0], '=');
  }

  /** What the parser produces is well formed... */
  lemma {:induction false} ParsedIsWellFormed(options: seq<string>)
    ensures forall p | p in ParseAll(options) :: WellFormedName(p.name) && Trimmed(p.value)
    ensures WellFormed(Parsed(options))
  {
    if options != [] {
      var n := |options| - 1;
      ParsedIsWellFormed(options[..n]);
      ParseOptionWellFormed(options[n]);
    }
    forall k | k in Parsed(options) ensures WellFormedName(k) && Trimmed(Parsed(options)[k]) {
      FoldBinds(ParseAll(options), k);
      var i: nat :| LastFor(ParseAll(options), i, k);
      assert ParseAll(options)[i] in ParseAll(options);
    }
  }

  /** ...and printing it in any order and parsing again gives it back: bare flags, empty values
      and values holding '=' included. Well-formed maps are therefore exactly the parser's results. */
  lemma PrintParseRoundTrip(m: Bindings, order: seq<string>)
    requires WellFormed(m) && Enumerates(order, m.Keys)
    ensures forall k :: k in order <==> k in m
    ensures Parsed(OptionsSlice(m, order, map[], [])) == m
  {
    FoldEnumeration(order, m);
    ParseAllPrinted(Listing(order, m));
    assert OptionsSlice(m, order, map[], []) == PrintAll(Listing(order, m));
  }

  // ---------------------------------------------------------------- adjusting

  function SecretLines(secret: Bindings): seq<string> {
    if "mountOptions" in secret then Split(secret["mountOptions"], '\n') else []
  }

  /** The known options of StorageClass and secret together. */
  function KnownOptions(scOptions: seq<string>, secret: Bindings, names: set<string>): Bindings {
    Known(Parsed(scOptions + SecretLines(secret)), names)
  }

  function UnknownOptions(scOptions: seq<string>, secret: Bindings, names: set<string>): Bindings {
    Unknown(Parsed(scOptions + SecretLines(secret)), names)
  }

  /** The secret's lines override the StorageClass options name by name. */
  lemma SecretOverStorageClass(scOptions: seq<string>, secret: Bindings, names: set<string>)
    ensures KnownOptions(scOptions, secret, names) ==
            map[] + Known(Parsed(scOptions), names) + Known(Parsed(SecretLines(secret)), names)
    ensures UnknownOptions(scOptions, secret, names) ==
            map[] + Unknown(Parsed(scOptions), names) + Unknown(Parsed(SecretLines(secret)), names)
    ensures "mountOptions" !in secret ==>
      && KnownOptions(scOptions, secret, names) == map[] + Known(Parsed(scOptions), names)
      && UnknownOptions(scOptions, secret, names) == map[] + Unknown(Parsed(scOptions), names)
  {
    LayeredClassification(scOptions, SecretLines(secret), names);
    Neutral(Known(Parsed(scOptions), names));
    Neutral(Unknown(Parsed(scOptions), names));
  }

  /** The secret's lines are what newlines separate: a secret written as a list of lines, none of which
      holds a newline, adds exactly these options to the StorageClass's. */
  lemma SecretAddsItsLines(scOptions: seq<string>, secret: Bindings, names: set<string>, lines: seq<string>)
    requires |lines| >= 1 && forall i | 0 <= i < |lines| :: '\n' !in lines[i]
    requires "mountOptions" in secret && secret["mountOptions"] == Join(lines, '\n')
    ensures KnownOptions(scOptions, secret, names) == Known(Parsed(scOptions + lines), names)
    ensures UnknownOptions(scOptions, secret, names) == Unknown(Parsed(scOptions + lines), names)
  {
    SplitJoin(lines, '\n');
  }

  lemma Neutral(m: Bindings)
    ensures map[] + m == m && m + map[] == m
  {
  }

  function Lookup(m: Bindings, k: string): Option<string> {
    if k in m then Some(m[k]) else None
  }

  /** "default" names no cipher suite and is dropped. */
  function WithoutDefaultCipher(m: Bindings): (r: Bindings)
    ensures forall k :: Lookup(r, k) ==
              if k == CIPHER_SUITES && k in m && ToLower(m[k]) == "default" then None else Lookup(m, k)
  {
    if ToLower(Get(m, CIPHER_SUITES)) == "default" then m - {CIPHER_SUITES} else m
  }

  /** What each option is after the driver's own rules: the pod's gid beats the secret's, which
      beats the mount option's; a gid without a uid is the uid too. None: the option is absent. */
  function Ruled(m: Bindings, secret: Bindings, gid: string, readOnly: bool, k: string): Option<string> {
    var here := Lookup(m, k);
    var g := FirstNonEmpty(gid, FirstNonEmpty(Get(secret, "gid"), Get(m, "gid")));
    var u := FirstNonEmpty(Get(secret, "uid"), FirstNonEmpty(Get(m, "uid"), g));
    if k == "ro" then if readOnly then Some("true") else here
    else if k == "gid" then if g != "" then Some(g) else here
    else if k == "uid" then if u != "" then Some(u) else here
    else if k == "tmpdir" || k == "use_cache" then if k in secret then Some(secret[k]) else here
    else here
  }

  const RULED := {"ro", "gid", "uid", "tmpdir", "use_cache"}

  function Adjusted(known: Bindings, secret: Bindings, gid: string, readOnly: bool): Bindings {
    var m := WithoutDefaultCipher(known);
    map k | k in m.Keys + RULED && Ruled(m, secret, gid, readOnly, k).Some? ::
      Ruled(m, secret, gid, readOnly, k).value
  }

  function FinalOptions(scOptions: seq<string>, secret: Bindings, names: set<string>, gid: string, readOnly: bool): Bindings {
    Adjusted(KnownOptions(scOptions, secret, names), secret, gid, readOnly)
  }

  lemma NamesDiffer()
    ensures CIPHER_SUITES !in RULED
    ensures "ro" !in {"gid", "uid", "tmpdir", "use_cache"} && "gid" !in {"uid", "tmpdir", "use_cache"}
    ensures "uid" !in {"tmpdir", "use_cache"} && "tmpdir" != "use_cache"
  {
    assert CIPHER_SUITES[0] == 'c' && "ro"[0] == 'r' && "gid"[0] == 'g';
    assert "uid"[1] == 'i' && "tmpdir"[0] == 't' && "use_cache"[1] == 's';
  }

  function SetIf(m: Bindings, cond: bool, k: string, v: string): Bindings {
    if cond then m[k := v] else m
  }

  lemma SetIfAt(m: Bindings, cond: bool, k: string, v: string, j: string)
    ensures Lookup(SetIf(m, cond, k, v), j) == if cond && j == k then Some(v) else Lookup(m, j)
  {
  }

  /** Who the mount runs as, in the order the driver decides it: the secret's uid and gid, the
      pod's gid, and the gid for a missing uid. */
  function Identified(m: Bindings, uid: string, secretGid: string, gid: string): Bindings {
    var a := SetIf(m, uid != "", "uid", uid);
    var b := SetIf(a, secretGid != "", "gid", secretGid);
    var c := SetIf(b, gid != "", "gid", gid);
    SetIf(c, Get(c, "gid") != "" && Get(c, "uid") == "", "uid", Get(c, "gid"))
  }

  /** The driver's rules in the order it applies them. */
  function RulesInOrder(m1: Bindings, secret: Bindings, gid: string, readOnly: bool): Bindings {
    var m2 := SetIf(m1, readOnly, "ro", "true");
    var m3 := Identified(m2, Get(secret, "uid"), Get(secret, "gid"), gid);
    var m4 := SetIf(m3, "tmpdir" in secret, "tmpdir", Get(secret, "tmpdir"));
    SetIf(m4, "use_cache" in secret, "use_cache", Get(secret, "use_cache"))
  }

  /** The later gid wins, and a missing uid follows the gid. */
  lemma IdentityRule(m: Bindings, uid: string, secretGid: string, gid: string, j: string)
    ensures
      var g := FirstNonEmpty(gid, FirstNonEmpty(secretGid, Get(m, "gid")));
      var u := FirstNonEmpty(uid, FirstNonEmpty(Get(m, "uid"), g));
      Lookup(Identified(m, uid, secretGid, gid), j) ==
        (if j == "gid" && g != "" then Some(g) else if j == "uid" && u != "" then Some(u) else Lookup(m, j))
  {
    NamesDiffer();
  }

  lemma RulesAtKey(m: Bindings, secret: Bindings, gid: string, readOnly: bool, k: string)
    ensures Lookup(RulesInOrder(m, secret, gid, readOnly), k) == Ruled(m, secret, gid, readOnly, k)
  {
    NamesDiffer();
    var m2 := SetIf(m, readOnly, "ro", "true");
    SetIfAt(m, readOnly, "ro", "true", k);
    SetIfAt(m, readOnly, "ro", "true", "uid");
    SetIfAt(m, readOnly, "ro", "true", "gid");
    var m3 := Identified(m2, Get(secret, "uid"), Get(secret, "gid"), gid);
    IdentityRule(m2, Get(secret, "uid"), Get(secret, "gid"), gid, k);
    var m4 := SetIf(m3, "tmpdir" in secret, "tmpdir", Get(secret, "tmpdir"));
    SetIfAt(m3, "tmpdir" in secret, "tmpdir", Get(secret, "tmpdir"), k);
    SetIfAt(m4, "use_cache" in secret, "use_cache", Get(secret, "use_cache"), k);
  }

  /** Applying the rules one after another gives each option the value its own rule says. */
  lemma RulesByKey(known: Bindings, secret: Bindings, gid: string, readOnly: bool)
    ensures RulesInOrder(WithoutDefaultCipher(known), secret, gid, readOnly) == Adjusted(known, secret, gid, readOnly)
  {
    var m := WithoutDefaultCipher(known);
    forall k ensures Lookup(RulesInOrder(m, secret, gid, readOnly), k) == Ruled(m, secret, gid, readOnly, k) {
      RulesAtKey(m, secret, gid, readOnly, k);
    }
    AdjustedByKey(known, secret, gid, readOnly, RulesInOrder(m, secret, gid, readOnly));
  }

  method AdjustOptions(known: Bindings, secret: Bindings, gid: string, readOnly: bool) returns (m: Bindings)
    ensures m == Adjusted(known, secret, gid, readOnly)
  {
    m := known;
    if ToLower(Get(m, CIPHER_SUITES)) == "default" {
      m := m - {CIPHER_SUITES};
    }
    ghost var m1 := m;
    assert m1 == WithoutDefaultCipher(known);
    if readOnly {
      m := m["ro" := "true"];
    }
    ghost var m2 := m;
    assert m2 == SetIf(m1, readOnly, "ro", "true");
    if Get(secret, "uid") != "" {
      m := m["uid" := secret["uid"]];
    }
    if Get(secret, "gid") != "" {
      m := m["gid" := secret["gid"]];
    }
    ghost var m4 := m;
    if gid != "" {
      m := m["gid" := gid];
    }
    ghost var m5 := m;
    assert m5 == SetIf(m4, gid != "", "gid", gid);
    if Get(m, "gid") != "" && Get(m, "uid") == "" {
      m := m["uid" := m["gid"]];
    }
    ghost var m6 := m;
    assert m6 == SetIf(m5, Get(m5, "gid") != "" && Get(m5, "uid") == "", "uid", Get(m5, "gid"));
    if "tmpdir" in secret {
      m := m["tmpdir" := secret["tmpdir"]];
    }
    if "use_cache" in secret {
      m := m["use_cache" := secret["use_cache"]];
    }
    RulesByKey(known, secret, gid, readOnly);
  }

  lemma AdjustedByKey(known: Bindings, secret: Bindings, gid: string, readOnly: bool, r: Bindings)
    requires forall k :: Lookup(r, k) == Ruled(WithoutDefaultCipher(known), secret, gid, readOnly, k)
    ensures r == Adjusted(known, secret, gid, readOnly)
  {
    var a := Adjusted(known, secret, gid, readOnly);
    forall k ensures Lookup(r, k) == Lookup(a, k) {
    }
    LookupExtensional(r, a);
  }

  lemma LookupExtensional(a: Bindings, b: Bindings)
    requires forall k :: Lookup(a, k) == Lookup(b, k)
    ensures a == b
  {
    assert forall k :: k in a <==> Lookup(a, k).Some?;
    assert forall k :: k in b <==> Lookup(b, k).Some?;
    assert forall k | k in a :: Lookup(a, k).value == a[k];
    assert forall k | k in b :: Lookup(b, k).value == b[k];
  }

  function FirstSet(a: Option<string>, b: Option<string>, c: Option<string>): Option<string> {
    if a.Some? && a.value != "" then a else if b.Some? && b.value != "" then b else c
  }

  /** What the driver's own rules promise of the final options: read-only mounts say ro=true and others
      keep what was parsed; gid is the pod's, else the secret's, else the parsed one; uid is the
      secret's, else the parsed one, else the gid; tmpdir and use_cache are the secret's or the
      parsed ones; a cipher_suites that says default is gone; everything else is as parsed. */
  lemma FinalExactly(scOptions: seq<string>, secret: Bindings, names: set<string>, gid: string, readOnly: bool, k: string)
    ensures var parsed, final := KnownOptions(scOptions, secret, names), FinalOptions(scOptions, secret, names, gid, readOnly);
            && (k == "ro" ==> Lookup(final, k) == if readOnly then Some("true") else Lookup(parsed, k))
            && (k == "gid" ==> Lookup(final, k) == FirstSet(Some(gid), Lookup(secret, k), Lookup(parsed, k)))
            && (k == "tmpdir" || k == "use_cache" ==>
                  Lookup(final, k) == if k in secret then Some(secret[k]) else Lookup(parsed, k))
            && (k == CIPHER_SUITES ==>
                  Lookup(final, k) == if k in parsed && ToLower(parsed[k]) == "default" then None else Lookup(parsed, k))
            && (k !in RULED + {CIPHER_SUITES} ==> Lookup(final, k) == Lookup(parsed, k))
  {
    NamesDiffer();
    FinalAt(scOptions, secret, names, gid, readOnly, k);
  }

  lemma FinalAt(scOptions: seq<string>, secret: Bindings, names: set<string>, gid: string, readOnly: bool, k: string)
    ensures Lookup(FinalOptions(scOptions, secret, names, gid, readOnly), k) ==
            Ruled(WithoutDefaultCipher(KnownOptions(scOptions, secret, names)), secret, gid, readOnly, k)
  {
  }

  lemma FinalUid(scOptions: seq<string>, secret: Bindings, names: set<string>, gid: string, readOnly: bool)
    ensures var parsed, final := KnownOptions(scOptions, secret, names), FinalOptions(scOptions, secret, names, gid, readOnly);
            var own := FirstSet(Lookup(secret, "uid"), Lookup(parsed, "uid"), None);
            Lookup(final, "uid") ==
              if own.Some? then own
              else if Get(final, "gid") != "" then Some(final["gid"])
              else Lookup(parsed, "uid")
  {
    NamesDiffer();
    FinalAt(scOptions, secret, names, gid, readOnly, "uid");
    FinalAt(scOptions, secret, names, gid, readOnly, "gid");
  }

  /** updateS3FSMountOptions. The orders are those of the loops over the adjusted options, the
      defaults and the unknown options. */
  method UpdateS3FSMountOptions(scOptions: seq<string>, secret: Bindings, names: set<string>, defaults: Bindings,
                                gid: string, readOnly: bool,
                                order: seq<string>, defaultOrder: seq<string>, unknownOrder: seq<string>)
    returns (updatedOptions: seq<string>, addMountParam: string)
    requires Enumerates(order, FinalOptions(scOptions, secret, names, gid, readOnly).Keys)
    requires Enumerates(defaultOrder, defaults.Keys)
    requires Enumerates(unknownOrder, UnknownOptions(scOptions, secret, names).Keys)
    ensures forall k :: k in order <==> k in FinalOptions(scOptions, secret, names, gid, readOnly)
    ensures forall k :: k in unknownOrder <==> k in UnknownOptions(scOptions, secret, names)
    ensures updatedOptions == OptionsSlice(FinalOptions(scOptions, secret, names, gid, readOnly), order, defaults, defaultOrder)
    ensures addMountParam == Join(PrintAll(Listing(unknownOrder, UnknownOptions(scOptions, secret, names))), ',')
  {
    var maps := new OptionMaps();
    maps.Classify(scOptions, names);
    if "mountOptions" in secret {
      maps.Classify(Split(secret["mountOptions"], '\n'), names);
    }
    SecretOverStorageClass(scOptions, secret, names);
    var m := AdjustOptions(maps.known, secret, gid, readOnly);
    updatedOptions := BuildMountOptionsSlice(m, defaults, order, defaultOrder);
    addMountParam := BuildAddMountParam(maps.unknown, unknownOrder);
  }
}
