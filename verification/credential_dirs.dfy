/** The per-target directories that hold s3fs password files and rclone configurations
    (pkg/mounter/mounter.go, mounter-s3fs.go, mounter-rclone.go). */
module CredentialDirs {
  import opened Wrappers

  /** A directory is named by a base and a hash of the target path; the hash is taken to be
      injective. */
  datatype DirId = DirId(base: string, target: string)

  type Files = map<string, string>

  type Dirs = map<DirId, Files>

  const PASS_FILE := ".passwd-s3fs"
  const CONFIG_FILE := "rclone.conf"
  const MAX_RETRIES := 3

  function FileOf(d: Dirs, id: DirId, name: string): Option<string> {
    if id in d && name in d[id] then Some(d[id][name]) else None
  }

  /** Writing from the start of a file without truncating it. */
  function Overwrite(was: string, content: string): string {
    if |was| <= |content| then content else content + was[|content|..]
  }

  function Min(a: nat, b: nat): nat {
    if a <= b then a else b
  }

  /** `stat` and `mkdir` tell whether these calls are answered, `open` whether the file opens,
      `written` how much of the content goes out before an error, `close` whether closing works,
      `request` whether the mount itself then works. */
  datatype MountEnv = MountEnv(stat: bool, mkdir: bool, open: bool, written: nat, close: bool, request: bool)

  /** writePass: the file afterwards, and whether no error is reported. */
  function WritePass(files: Files, content: string, env: MountEnv): (Files, bool) {
    if !env.open then (files, false)
    else
      var was := if PASS_FILE in files then files[PASS_FILE] else "";
      var n := Min(env.written, |content|);
      (files[PASS_FILE := Overwrite(was, content[..n])], n == |content| && env.close)
  }

  /** S3fsMounter.Mount up to and including the mount request. */
  function MountS3fs(d: Dirs, id: DirId, accessKeys: string, env: MountEnv): (Dirs, bool) {
    if !env.stat || (id !in d && !env.mkdir) then (d, false)
    else
      var (files, ok) := WritePass(if id in d then d[id] else map[], accessKeys, env);
      (d[id := files], ok && env.request)
  }

  /** RcloneMounter.Mount: os.Create truncates the configuration before it is written. */
  function MountRclone(d: Dirs, id: DirId, config: string, env: MountEnv): (Dirs, bool) {
    if !env.mkdir then (d, false)
    else
      var files := if id in d then d[id] else map[];
      if !env.open then (d[id := files], false)
      else
        var n := Min(env.written, |config|);
        (d[id := files[CONFIG_FILE := config[..n]]], n == |config| && env.request)
  }

  /** One attempt of the cleanup: the stat fails, or the removal fails and leaves some files, or
      the removal works. */
  datatype Attempt = StatFails | RemoveFails(left: set<string>) | Removes

  function Keep(files: Files, names: set<string>): Files {
    map f | f in files && f in names :: files[f]
  }

  /** removeS3FSCredFile and removeRcloneConfigFile, from attempt i. */
  function CleanUp(d: Dirs, id: DirId, attempts: nat -> Attempt, i: nat): Dirs
    decreases MAX_RETRIES - i
  {
    if i >= MAX_RETRIES then d
    else
      match attempts(i)
      case StatFails => CleanUp(d, id, attempts, i + 1)
      case RemoveFails(left) => if id !in d then d else CleanUp(d[id := Keep(d[id], left)], id, attempts, i + 1)
      case Removes => d - {id}
  }

  /** Unmount: nothing is cleaned up when the unmount fails. */
  function Unmount(d: Dirs, id: DirId, request: bool, attempts: nat -> Attempt): (Dirs, bool) {
    if request then (CleanUp(d, id, attempts, 0), true) else (d, false)
  }

  /** The directories on a node. */
  class ConfigDirs {
    var dirs: Dirs

    constructor ()
      ensures dirs == map[]
    {
      dirs := map[];
    }

    method WritePassFile(id: DirId, content: string, env: MountEnv) returns (ok: bool)
      requires id in dirs
      modifies this
      ensures dirs == old(dirs)[id := WritePass(old(dirs)[id], content, env).0]
      ensures ok == WritePass(old(dirs)[id], content, env).1
    {
      if !env.open {
        assert dirs[id := dirs[id]] == dirs;
        return false;
      }
      var files := dirs[id];
      var text := content[..Min(env.written, |content|)];
      var was := if PASS_FILE in files then files[PASS_FILE] else "";
      // the bytes past the new content stay
      var tail := if |was| <= |text| then "" else was[|text|..];
      dirs := dirs[id := files[PASS_FILE := text + tail]];
      assert text + tail == Overwrite(was, text);
      return |text| == |content| && env.close;
    }

    method Mount(id: DirId, accessKeys: string, env: MountEnv) returns (ok: bool)
      modifies this
      ensures (dirs, ok) == MountS3fs(old(dirs), id, accessKeys, env)
    {
      if !env.stat {
        return false;
      }
      var pathExist := id in dirs;
      if !pathExist {
        if !env.mkdir {
          return false;
        }
        dirs := dirs[id := map[]];
      }
      ok := WritePassFile(id, accessKeys, env);
      assert dirs == old(dirs)[id := WritePass(if id in old(dirs) then old(dirs)[id] else map[], accessKeys, env).0];
      if !ok {
        return false;
      }
      return env.request;
    }

    method MountConfig(id: DirId, config: string, env: MountEnv) returns (ok: bool)
      modifies this
      ensures (dirs, ok) == MountRclone(old(dirs), id, config, env)
    {
      if !env.mkdir {
        return false;
      }
      var files := if id in dirs then dirs[id] else map[];
      dirs := dirs[id := files];
      if !env.open {
        return false;
      }
      // created empty, then written
      dirs := dirs[id := files[CONFIG_FILE := ""]];
      var text := config[..Min(env.written, |config|)];
      dirs := dirs[id := files[CONFIG_FILE := text]];
      assert dirs == old(dirs)[id := files[CONFIG_FILE := text]];
      return |text| == |config| && env.request;
    }

    method RemoveDir(id: DirId, attempts: nat -> Attempt)
      modifies this
      ensures dirs == CleanUp(old(dirs), id, attempts, 0)
    {
      for retry := 0 to MAX_RETRIES
        invariant CleanUp(dirs, id, attempts, retry) == CleanUp(old(dirs), id, attempts, 0)
      {
        if attempts(retry) == StatFails {
          continue;
        }
        if id !in dirs {
          assert dirs - {id} == dirs;
          return;
        }
        if attempts(retry).RemoveFails? {
          dirs := dirs[id := Keep(dirs[id], attempts(retry).left)];
          continue;
        }
        dirs := dirs - {id};
        return;
      }
    }

    method UnmountTarget(id: DirId, request: bool, attempts: nat -> Attempt) returns (ok: bool)
      modifies this
      ensures (dirs, ok) == Unmount(old(dirs), id, request, attempts)
    {
      if !request {
        return false;
      }
      RemoveDir(id, attempts);
      return true;
    }
  }

  /** Three attempts: the directory is gone exactly when it was not there or one of them works. */
  lemma {:induction false} CleanUpRemoves(d: Dirs, id: DirId, attempts: nat -> Attempt, i: nat)
    requires i <= MAX_RETRIES
    ensures id !in CleanUp(d, id, attempts, i) <==> id !in d || exists j: nat :: i <= j < MAX_RETRIES && attempts(j).Removes?
    ensures CleanUp(d, id, attempts, i) - {id} == d - {id}
    decreases MAX_RETRIES - i
  {
    if i < MAX_RETRIES {
      match attempts(i)
      case StatFails =>
        CleanUpRemoves(d, id, attempts, i + 1);
      case RemoveFails(left) =>
        if id in d {
          CleanUpRemoves(d[id := Keep(d[id], left)], id, attempts, i + 1);
        }
      case Removes =>
    }
  }

  // ---------------------------------------------------------------- runs

  datatype Event =
    | S3fsMount(id: DirId, keys: string, env: MountEnv)
    | RcloneMount(id: DirId, config: string, env: MountEnv)
    | Dismount(id: DirId, request: bool, attempts: nat -> Attempt)

  function Step(d: Dirs, e: Event): Dirs {
    match e
    case S3fsMount(id, keys, env) => MountS3fs(d, id, keys, env).0
    case RcloneMount(id, config, env) => MountRclone(d, id, config, env).0
    case Dismount(id, request, attempts) => Unmount(d, id, request, attempts).0
  }

  function Run(events: seq<Event>): Dirs {
    if events == [] then map[] else Step(Run(events[..|events| - 1]), events[|events| - 1])
  }

  /** No step touches another target's directory. */
  lemma StepStaysHome(d: Dirs, e: Event)
    ensures Step(d, e) - {e.id} == d - {e.id}
  {
    if e.Dismount? {
      CleanUpRemoves(d, e.id, e.attempts, 0);
    }
  }

  /** The s3fs mount gets as far as writing the password file. */
  predicate WritesPass(d: Dirs, e: Event) {
    e.S3fsMount? && e.env.stat && (e.id in d || e.env.mkdir) && e.env.open
  }

  function Written(e: Event): string
    requires e.S3fsMount?
  {
    e.keys[..Min(e.env.written, |e.keys|)]
  }

  /** What was written to id's password file since it was last removed, oldest first. */
  function Writes(events: seq<Event>, id: DirId): seq<string> {
    if events == [] then []
    else
      var n := |events| - 1;
      var e := events[n];
      var before := Writes(events[..n], id);
      if e.id != id then before
      else if WritesPass(Run(events[..n]), e) then before + [Written(e)]
      else if FileOf(Run(events), id, PASS_FILE).None? then []
      else before
  }

  /** The file content that a list of overwrites leaves. */
  function Layered(ws: seq<string>): string {
    if ws == [] then "" else Overwrite(Layered(ws[..|ws| - 1]), ws[|ws| - 1])
  }

  predicate LastLonger(ws: seq<string>, j: nat, i: nat) {
    j < |ws| && i < |ws[j]| && forall k | j < k < |ws| :: |ws[k]| <= i
  }

  /** Character i of the file is that of the last write longer than i; the file ends where no write
      reaches. */
  lemma {:induction false} LayeredAt(ws: seq<string>, i: nat)
    ensures i < |Layered(ws)| <==> exists j: nat :: LastLonger(ws, j, i)
    ensures forall j: nat | LastLonger(ws, j, i) :: i < |Layered(ws)| && Layered(ws)[i] == ws[j][i]
  {
    if ws != [] {
      var n := |ws| - 1;
      LayeredAt(ws[..n], i);
      OverwriteAt(Layered(ws[..n]), ws[n], i);
      if i < |ws[n]| {
        assert LastLonger(ws, n, i);
      } else {
        LastLongerSkips(ws, i);
        if i < |Layered(ws)| {
          var j: nat :| LastLonger(ws[..n], j, i);
          assert LastLonger(ws, j, i);
        }
      }
    }
  }

  lemma OverwriteAt(was: string, content: string, i: nat)
    ensures var r := Overwrite(was, content);
            if i < |content| then i < |r| && r[i] == content[i]
            else (i < |r| <==> i < |was|) && (i < |r| ==> r[i] == was[i])
  {
  }

  /** A last write that does not reach i changes nothing there. */
  lemma LastLongerSkips(ws: seq<string>, i: nat)
    requires ws != [] && |ws[|ws| - 1]| <= i
    ensures forall j: nat :: LastLonger(ws, j, i) <==> LastLonger(ws[..|ws| - 1], j, i)
  {
  }

  /** The file holds exactly the last write if and only if no earlier one was longer. */
  lemma {:induction false} LayeredIsLast(ws: seq<string>)
    requires ws != []
    ensures Layered(ws) == ws[|ws| - 1] <==> forall j | 0 <= j < |ws| :: |ws[j]| <= |ws[|ws| - 1]|
  {
    var last := ws[|ws| - 1];
    if Layered(ws) == last {
      forall j | 0 <= j < |ws| ensures |ws[j]| <= |last| {
        LayeredLength(ws, j);
      }
    } else {
      var before := ws[..|ws| - 1];
      assert |Layered(before)| > |last|;
      LayeredAt(before, |last|);
      var j: nat :| LastLonger(before, j, |last|);
      assert |ws[j]| > |last|;
    }
  }

  lemma {:induction false} LayeredLength(ws: seq<string>, j: nat)
    requires j < |ws|
    ensures |ws[j]| <= |Layered(ws)|
  {
    if j < |ws| - 1 {
      LayeredLength(ws[..|ws| - 1], j);
    }
  }

  lemma NamesDiffer()
    ensures PASS_FILE != CONFIG_FILE
  {
    assert PASS_FILE[0] == '.' && CONFIG_FILE[0] == 'r';
  }

  /** Cleaning up removes the password file or leaves it as it is. */
  lemma {:induction false} CleanUpKeepsOrRemoves(d: Dirs, id: DirId, attempts: nat -> Attempt, i: nat)
    ensures FileOf(CleanUp(d, id, attempts, i), id, PASS_FILE) in {None, FileOf(d, id, PASS_FILE)}
    decreases MAX_RETRIES - i
  {
    if i < MAX_RETRIES {
      match attempts(i)
      case StatFails =>
        CleanUpKeepsOrRemoves(d, id, attempts, i + 1);
      case RemoveFails(left) =>
        if id in d {
          CleanUpKeepsOrRemoves(d[id := Keep(d[id], left)], id, attempts, i + 1);
        }
      case Removes =>
    }
  }

  /** What one step does to a password file. */
  lemma StepOnPassFile(d: Dirs, e: Event, id: DirId)
    ensures var before, after := FileOf(d, id, PASS_FILE), FileOf(Step(d, e), id, PASS_FILE);
            if e.id == id && WritesPass(d, e) then
              after == Some(Overwrite(if before.Some? then before.value else "", Written(e)))
            else if e.id == id then after in {None, before}
            else after == before
  {
    NamesDiffer();
    if e.id != id {
      StepStaysHome(d, e);
      assert id in Step(d, e) <==> id in Step(d, e) - {e.id};
      assert id in d <==> id in d - {e.id};
    } else if e.Dismount? {
      CleanUpKeepsOrRemoves(d, id, e.attempts, 0);
    }
  }

  lemma LayeredSnoc(ws: seq<string>, w: string)
    ensures Layered(ws + [w]) == Overwrite(Layered(ws), w)
  {
    assert (ws + [w])[..|ws|] == ws;
  }

  /** Over every run of s3fs and rclone mounts and unmounts of any targets, with any call failing, a
      password file is there exactly when something was written since its last removal, and then
      holds those writes layered. */
  lemma {:induction false} PassFileIsLayered(events: seq<Event>, id: DirId)
    ensures FileOf(Run(events), id, PASS_FILE) ==
            if Writes(events, id) == [] then None else Some(Layered(Writes(events, id)))
  {
    if events != [] {
      var n := |events| - 1;
      var e := events[n];
      PassFileIsLayered(events[..n], id);
      StepOnPassFile(Run(events[..n]), e, id);
      if e.id == id && WritesPass(Run(events[..n]), e) {
        LayeredSnoc(Writes(events[..n], id), Written(e));
      }
    }
  }

  /** A mount wrote its keys completely. */
  predicate Wrote(d: Dirs, e: Event) {
    WritesPass(d, e) && Written(e) == e.keys
  }

  /** S3fsMounter.Mount reports success exactly when it wrote all its keys, closed the file and the
      mount request worked; a short or failed write is an error before any request. Either way its
      directory is there once it got as far as making it, and only then. */
  lemma S3fsReportsExactly(d: Dirs, id: DirId, keys: string, env: MountEnv)
    ensures var (d', ok) := MountS3fs(d, id, keys, env);
            && (ok <==> Wrote(d, S3fsMount(id, keys, env)) && env.close && env.request)
            && (id in d' <==> id in d || (env.stat && env.mkdir))
  {
    assert keys[..|keys|] == keys;
  }

  /** RcloneMounter.Mount likewise. Whatever went out before an error is all the file holds; the error
      of the deferred close is only logged. */
  lemma RcloneReportsExactly(d: Dirs, id: DirId, config: string, env: MountEnv)
    ensures var (d', ok) := MountRclone(d, id, config, env);
            && (ok <==> env.mkdir && env.open && env.written >= |config| && env.request)
            && (id in d' <==> id in d || env.mkdir)
            && FileOf(d', id, CONFIG_FILE) ==
               if env.mkdir && env.open then Some(config[..Min(env.written, |config|)]) else FileOf(d, id, CONFIG_FILE)
  {
    assert config[..|config|] == config;
  }

  /** Unmount reports what the request answers. A failed one touches nothing; after one that works the
      target's directory is gone exactly when it was not there or one of three attempts removed it. */
  lemma UnmountReportsExactly(d: Dirs, id: DirId, request: bool, attempts: nat -> Attempt)
    ensures var (d', ok) := Unmount(d, id, request, attempts);
            && (ok <==> request)
            && (!request ==> d' == d)
            && (request ==> (id !in d' <==> id !in d || exists j: nat :: j < 3 && attempts(j).Removes?))
            && d' - {id} == d - {id}
  {
    CleanUpRemoves(d, id, attempts, 0);
  }

  /** After a mount that wrote all its keys, the password file equals them exactly when nothing
      written since the file was last removed is longer. */
  lemma PasswordIsExact(events: seq<Event>, e: Event)
    requires Wrote(Run(events), e)
    ensures FileOf(Run(events + [e]), e.id, PASS_FILE) == Some(e.keys) <==>
            forall w | w in Writes(events, e.id) :: |w| <= |e.keys|
  {
    var run := events + [e];
    assert run[..|events|] == events;
    PassFileIsLayered(run, e.id);
    var ws := Writes(run, e.id);
    assert ws == Writes(events, e.id) + [e.keys];
    LayeredIsLast(ws);
    assert forall w | w in Writes(events, e.id) :: w in ws;
    assert forall j | 0 <= j < |ws| - 1 :: ws[j] in Writes(events, e.id);
  }

  /** Steps that leave id's password file alone: those on other targets, rclone's, and unmounts that
      fail. */
  predicate Harmless(e: Event, id: DirId) {
    e.id == id ==> e.RcloneMount? || (e.Dismount? && !e.request)
  }

  lemma {:induction false} HarmlessSteps(events: seq<Event>, more: seq<Event>, id: DirId)
    requires forall e | e in more :: Harmless(e, id)
    ensures FileOf(Run(events + more), id, PASS_FILE) == FileOf(Run(events), id, PASS_FILE)
  {
    if more == [] {
      assert events + more == events;
    } else {
      var n := |more| - 1;
      HarmlessSteps(events, more[..n], id);
      assert (events + more)[..|events + more| - 1] == events + more[..n];
      assert Harmless(more[n], id);
      HarmlessStep(Run(events + more[..n]), more[n], id);
    }
  }

  lemma HarmlessStep(d: Dirs, e: Event, id: DirId)
    requires Harmless(e, id)
    ensures FileOf(Step(d, e), id, PASS_FILE) == FileOf(d, id, PASS_FILE)
  {
    NamesDiffer();
    StepOnPassFile(d, e, id);
  }

  /** An unmount that works and whose cleanup is completed. */
  predicate CleansUp(e: Event) {
    e.Dismount? && e.request && exists j: nat :: j < MAX_RETRIES && e.attempts(j).Removes?
  }

  predicate CleanedBetween(events: seq<Event>, id: DirId, i: nat, j: nat) {
    exists k: nat :: i < k < j <= |events| && events[k].id == id && CleansUp(events[k])
  }

  /** The protocol: between any two s3fs mounts of one target lies a completed cleanup of it. */
  predicate CleansBeforeRemount(events: seq<Event>) {
    forall i, j | 0 <= i < j < |events| && events[i].S3fsMount? && events[j].S3fsMount? && events[i].id == events[j].id ::
      CleanedBetween(events, events[j].id, i, j)
  }

  /** Event m mounted id, and nothing before n cleaned up after it. */
  predicate LeftBehind(events: seq<Event>, id: DirId, m: nat, n: nat) {
    m < n <= |events| && events[m].S3fsMount? && events[m].id == id && !CleanedBetween(events, id, m, n)
  }

  lemma CleansUpRemovesFile(d: Dirs, e: Event)
    requires CleansUp(e)
    ensures FileOf(Step(d, e), e.id, PASS_FILE) == None
  {
    CleanUpRemoves(d, e.id, e.attempts, 0);
  }

  /** A password file is there only after an s3fs mount that nothing has cleaned up after. */
  lemma {:induction false} FileHasAMount(events: seq<Event>, id: DirId, n: nat) returns (m: nat)
    requires n <= |events| && FileOf(Run(events[..n]), id, PASS_FILE) != None
    ensures LeftBehind(events, id, m, n)
  {
    var e := events[n - 1];
    var d := Run(events[..n - 1]);
    assert events[..n][..n - 1] == events[..n - 1];
    FileComesFrom(d, e, id);
    if e.id == id && e.S3fsMount? {
      m := n - 1;
    } else {
      m := FileHasAMount(events, id, n - 1);
      NotCleanedSnoc(events, id, m, n);
    }
  }

  /** A file that is there after a step was there before, unless the step is an s3fs mount of it; and
      the step has not cleaned it up. */
  lemma FileComesFrom(d: Dirs, e: Event, id: DirId)
    requires FileOf(Step(d, e), id, PASS_FILE) != None
    ensures (e.id == id && e.S3fsMount?) || FileOf(d, id, PASS_FILE) != None
    ensures !(e.id == id && CleansUp(e))
  {
    StepOnPassFile(d, e, id);
    if e.id == id && CleansUp(e) {
      CleansUpRemovesFile(d, e);
    }
  }

  lemma NotCleanedSnoc(events: seq<Event>, id: DirId, m: nat, n: nat)
    requires m < n - 1 < |events| && !CleanedBetween(events, id, m, n - 1)
    requires !(events[n - 1].id == id && CleansUp(events[n - 1]))
    ensures !CleanedBetween(events, id, m, n)
  {
  }

  /** So under the protocol every mount finds its target clean, whatever other targets do. */
  lemma CleanBeforeMount(events: seq<Event>, i: nat)
    requires CleansBeforeRemount(events) && i < |events| && events[i].S3fsMount?
    ensures FileOf(Run(events[..i]), events[i].id, PASS_FILE) == None
  {
    var id := events[i].id;
    if FileOf(Run(events[..i]), id, PASS_FILE) != None {
      var m := FileHasAMount(events, id, i);
      assert false;
    }
  }

  /** The target stays mounted: no unmount of it works. */
  ghost predicate StaysMounted(more: seq<Event>, id: DirId) {
    forall o | o in more :: !(o.id == id && o.Dismount? && o.request)
  }

  /** Under the protocol a remount of e's target comes after an unmount that worked. */
  lemma UnmountedBefore(events: seq<Event>, e: Event, more: seq<Event>, j: nat) returns (o: Event)
    requires CleansBeforeRemount(events + [e] + more) && e.S3fsMount?
    requires j < |more| && more[j].S3fsMount? && more[j].id == e.id
    ensures o in more && o.id == e.id && o.Dismount? && o.request
  {
    var all, i := events + [e] + more, |events|;
    assert all[i] == e && all[i + 1 + j] == more[j];
    assert CleanedBetween(all, e.id, i, i + 1 + j);
    var k: nat :| i < k < i + 1 + j && all[k].id == e.id && CleansUp(all[k]);
    o := more[k - i - 1];
  }

  /** So nothing that happens while a target is mounted touches its password file. */
  lemma MountedIsHarmless(events: seq<Event>, e: Event, more: seq<Event>, o: Event)
    requires CleansBeforeRemount(events + [e] + more) && e.S3fsMount?
    requires StaysMounted(more, e.id) && o in more
    ensures Harmless(o, e.id)
  {
    if o.id == e.id && o.S3fsMount? {
      var j :| 0 <= j < |more| && more[j] == o;
      var _ := UnmountedBefore(events, e, more, j);
      assert false;
    }
  }

  /** Credential exactness over runs. If every remount of a target comes after a completed cleanup,
      each mounted target's file equals the keys of its mount, from the moment they are completely
      written until an unmount of it works; whatever fails, its own unmounts included, and whatever
      happens to other targets. */
  lemma CredentialsAreExact(events: seq<Event>, e: Event, more: seq<Event>)
    requires CleansBeforeRemount(events + [e] + more)
    requires Wrote(Run(events), e) && StaysMounted(more, e.id)
    ensures FileOf(Run(events + [e] + more), e.id, PASS_FILE) == Some(e.keys)
  {
    var all := events + [e] + more;
    assert all[..|events|] == events && all[|events|] == e;
    CleanBeforeMount(all, |events|);
    PassFileIsLayered(events, e.id);
    PasswordIsExact(events, e);
    forall o | o in more ensures Harmless(o, e.id) {
      MountedIsHarmless(events, e, more, o);
    }
    HarmlessSteps(events + [e], more, e.id);
  }

  /** So it does after every s3fs mount that reported success. */
  lemma ReportedMountsAreExact(events: seq<Event>, e: Event, more: seq<Event>)
    requires CleansBeforeRemount(events + [e] + more) && StaysMounted(more, e.id)
    requires e.S3fsMount? && MountS3fs(Run(events), e.id, e.keys, e.env).1
    ensures FileOf(Run(events + [e] + more), e.id, PASS_FILE) == Some(e.keys)
  {
    S3fsReportsExactly(Run(events), e.id, e.keys, e.env);
    CredentialsAreExact(events, e, more);
  }

  /** Without the cleanup it fails: a mount request that is refused leaves its keys behind, and the
      next mount of the target with shorter keys succeeds over a file that ends in the old ones. */
  lemma StaleTail(id: DirId, long: string, short: string)
    requires |short| < |long|
    ensures var refused := S3fsMount(id, long, MountEnv(true, true, true, |long|, true, false));
            var accepted := S3fsMount(id, short, MountEnv(true, true, true, |short|, true, true));
            && MountS3fs(Run([refused]), id, short, accepted.env).1
            && FileOf(Run([refused, accepted]), id, PASS_FILE) == Some(short + long[|short|..])
            && short + long[|short|..] != short
  {
    var refused := S3fsMount(id, long, MountEnv(true, true, true, |long|, true, false));
    var accepted := S3fsMount(id, short, MountEnv(true, true, true, |short|, true, true));
    assert [refused, accepted][..1] == [refused] && [refused][..0] == [];
    assert Run([refused]) == Step(map[], refused);
    assert long[..|long|] == long && short[..|short|] == short;
    assert |short + long[|short|..]| == |long|;
  }

  /** rclone truncates, so its configuration is exact after every complete write, whatever was left. */
  lemma ConfigIsExact(d: Dirs, id: DirId, config: string, env: MountEnv)
    requires env.mkdir && env.open && env.written >= |config|
    ensures FileOf(MountRclone(d, id, config, env).0, id, CONFIG_FILE) == Some(config)
    ensures FileOf(MountRclone(d, id, config, env).0, id, PASS_FILE) == FileOf(d, id, PASS_FILE)
  {
    NamesDiffer();
    assert config[..|config|] == config;
  }
}
