/** The object store as a session sees it (pkg/s3client/s3client.go). Every call may be answered,
    rejected before it takes effect, or lost: applied, but reported to the caller as failed. */
module ObjectStorage {
  import opened Arithmetic
  import opened Wrappers

  datatype Outcome = Answered | Rejected | Lost

  type Account = nat

  type Objects = map<string, string>

  datatype Bucket = Bucket(
    owner: Account, guests: set<Account>, objects: Objects, quota: Option<int>, versioning: Option<bool>)

  type Cloud = map<string, Bucket>

  predicate Accessible(c: Cloud, who: Account, b: string) {
    b in c && (who == c[b].owner || who in c[b].guests)
  }

  datatype SdkError = NameTaken(smithy: bool) | Other

  function NewBucket(who: Account): Bucket {
    Bucket(who, {}, map[], None, None)
  }

  // ---------------------------------------------------------------- what each call does

  /** HeadBucket */
  predicate Heads(c: Cloud, who: Account, b: string, outcome: Outcome) {
    outcome == Answered && Accessible(c, who, b)
  }

  /** CreateBucket. A name that is taken is an error, except for its owner. */
  function Create(c: Cloud, who: Account, b: string, outcome: Outcome, smithy: bool): (Cloud, Option<SdkError>) {
    if outcome == Rejected then (c, Some(Other))
    else if b in c then
      (c, if outcome == Lost then Some(Other) else if c[b].owner == who then None else Some(NameTaken(smithy)))
    else (c[b := NewBucket(who)], if outcome == Lost then Some(Other) else None)
  }

  /** PutBucketVersioning */
  function PutVersioning(c: Cloud, who: Account, b: string, enable: bool, outcome: Outcome): (Cloud, bool) {
    if outcome == Rejected || !Accessible(c, who, b) then (c, false)
    else (c[b := c[b].(versioning := Some(enable))], outcome == Answered)
  }

  /** UpdateBucketConfig, which runs under its own API key. */
  function PutQuota(c: Cloud, b: string, quota: int, outcome: Outcome): (Cloud, bool) {
    if outcome == Rejected || b !in c then (c, false)
    else (c[b := c[b].(quota := Some(quota))], outcome == Answered)
  }

  /** What happens to the calls of one DeleteBucket; the store chooses the listed page. */
  datatype DeleteEnv = DeleteEnv(list: Outcome, page: seq<string>, objects: nat -> Outcome, bucket: Outcome)

  /** The first of n calls that was not answered, or n. */
  function FirstFault(f: nat -> Outcome, n: nat): (i: nat)
    ensures i <= n
    ensures forall j: nat | j < i :: f(j) == Answered
    ensures i < n ==> f(i) != Answered
  {
    if n == 0 then 0
    else
      var i := FirstFault(f, n - 1);
      if i < n - 1 then i else if f(n - 1) == Answered then n else n - 1
  }

  function Names(page: seq<string>): set<string> {
    set k | k in page
  }

  /** The objects gone when the delete loop ends: those before the fault, and the faulty one too
      if only its answer was lost. */
  function Gone(env: DeleteEnv): nat {
    var i := FirstFault(env.objects, |env.page|);
    if i < |env.page| && env.objects(i) == Lost then i + 1 else i
  }

  /** COSSession.DeleteBucket: one page of objects, then the bucket itself. */
  function Delete(c: Cloud, who: Account, b: string, env: DeleteEnv): (Cloud, bool) {
    if env.list != Answered then (c, false)
    else if b !in c then (c, true)
    else if !Accessible(c, who, b) then (c, false)
    else
      var c1 := c[b := c[b].(objects := c[b].objects - Names(env.page[..Gone(env)]))];
      if FirstFault(env.objects, |env.page|) < |env.page| || env.bucket == Rejected || c1[b].objects != map[] then (c1, false)
      else (c - {b}, env.bucket == Answered)
  }

  /** The store behind all sessions. */
  class ObjectStore {
    var cloud: Cloud

    constructor (c: Cloud)
      ensures cloud == c
    {
      cloud := c;
    }
  }

  /** Where a session sends its calls. What it gets for an answer is up to the outcomes. */
  datatype Site = Site(endPoint: string, location: string)

  class COSSession {
    const store: ObjectStore
    const account: Account
    const site: Site

    constructor (store: ObjectStore, account: Account, site: Site)
      ensures this.store == store && this.account == account && this.site == site
    {
      this.store, this.account, this.site := store, account, site;
    }

    method CheckBucketAccess(b: string, outcome: Outcome) returns (ok: bool)
      ensures ok == Heads(store.cloud, account, b, outcome)
    {
      ok := outcome == Answered && b in store.cloud && (account == store.cloud[b].owner || account in store.cloud[b].guests);
    }

    method CreateBucket(b: string, outcome: Outcome, smithy: bool) returns (err: Option<SdkError>)
      modifies store
      ensures (store.cloud, err) == Create(old(store.cloud), account, b, outcome, smithy)
    {
      if outcome == Rejected {
        return Some(Other);
      }
      var taken := b in store.cloud;
      if !taken {
        store.cloud := store.cloud[b := NewBucket(account)];
      }
      if outcome == Lost {
        return Some(Other);
      }
      if taken && store.cloud[b].owner != account {
        return Some(NameTaken(smithy));
      }
      // "already owned by you" is not an error
      return None;
    }

    method SetBucketVersioning(b: string, enable: bool, outcome: Outcome) returns (ok: bool)
      modifies store
      ensures (store.cloud, ok) == PutVersioning(old(store.cloud), account, b, enable, outcome)
    {
      if outcome == Rejected || !Accessible(store.cloud, account, b) {
        return false;
      }
      store.cloud := store.cloud[b := store.cloud[b].(versioning := Some(enable))];
      return outcome == Answered;
    }

    method UpdateQuotaLimit(quota: int, b: string, outcome: Outcome) returns (ok: bool)
      modifies store
      ensures (store.cloud, ok) == PutQuota(old(store.cloud), b, quota, outcome)
    {
      if outcome == Rejected || b !in store.cloud {
        return false;
      }
      store.cloud := store.cloud[b := store.cloud[b].(quota := Some(quota))];
      return outcome == Answered;
    }

    method DeleteBucket(b: string, env: DeleteEnv) returns (ok: bool)
      modifies store
      ensures (store.cloud, ok) == Delete(old(store.cloud), account, b, env)
    {
      if env.list != Answered {
        return false;
      }
      if b !in store.cloud {
        return true;
      }
      if !Accessible(store.cloud, account, b) {
        return false;
      }
      ghost var c := store.cloud;
      ghost var objects := c[b].objects;
      assert objects - Names(env.page[..0]) == objects;
      for i := 0 to |env.page|
        invariant forall j: nat | j < i :: env.objects(j) == Answered
        invariant store.cloud == c[b := c[b].(objects := objects - Names(env.page[..i]))]
      {
        if env.objects(i) != Rejected {
          DeleteObject(b, env.page[i]);
          assert objects - Names(env.page[..i]) - {env.page[i]} == objects - Names(env.page[..i + 1]);
        }
        if env.objects(i) != Answered {
          assert FirstFault(env.objects, |env.page|) == i;
          assert Gone(env) == if env.objects(i) == Lost then i + 1 else i;
          assert store.cloud == c[b := c[b].(objects := objects - Names(env.page[..Gone(env)]))];
          return false;
        }
      }
      assert FirstFault(env.objects, |env.page|) == |env.page| == Gone(env);
      if env.bucket == Rejected || store.cloud[b].objects != map[] {
        return false;
      }
      store.cloud := store.cloud - {b};
      assert store.cloud == c - {b};
      return env.bucket == Answered;
    }

    method DeleteObject(b: string, key: string)
      requires b in store.cloud
      modifies store
      ensures store.cloud == old(store.cloud)[b := old(store.cloud)[b].(objects := old(store.cloud)[b].objects - {key})]
    {
      store.cloud := store.cloud[b := store.cloud[b].(objects := store.cloud[b].objects - {key})];
    }
  }

  // ---------------------------------------------------------------- DeleteBucket, call by call

  /** Every call answered. */
  predicate Calm(env: DeleteEnv) {
    env.list == Answered && env.bucket == Answered && FirstFault(env.objects, |env.page|) == |env.page|
  }

  /** A page the store may list: distinct keys of the bucket, as many as fit. */
  ghost predicate PageOf(page: seq<string>, objects: Objects, size: nat) {
    && multiset(page) == multiset(Names(page))
    && Names(page) <= objects.Keys
    && |page| == if |objects| <= size then |objects| else size
  }

  lemma PageSize(page: seq<string>)
    requires multiset(page) == multiset(Names(page))
    ensures |Names(page)| == |page|
  {
    assert |multiset(page)| == |page| && |multiset(Names(page))| == |Names(page)|;
  }

  lemma MapMinus(m: Objects, keys: set<string>)
    requires keys <= m.Keys
    ensures |m - keys| == |m| - |keys|
  {
    assert (m - keys).Keys == m.Keys - keys;
    assert |m| == |m.Keys| && |m - keys| == |(m - keys).Keys|;
  }

  /** Part of the objects, as they were. */
  predicate Within(part: Objects, objects: Objects) {
    forall k | k in part :: k in objects && part[k] == objects[k]
  }

  /** Bucket b has lost objects and nothing else has changed. */
  predicate OnlyFewerObjects(c: Cloud, c': Cloud, b: string) {
    b in c && b in c' && c' == c[b := c[b].(objects := c'[b].objects)] && Within(c'[b].objects, c[b].objects)
  }

  lemma FewerAgain(c: Cloud, c1: Cloud, c2: Cloud, b: string)
    requires OnlyFewerObjects(c, c1, b)
    ensures OnlyFewerObjects(c1, c2, b) ==> OnlyFewerObjects(c, c2, b)
    ensures c2 == c1 - {b} ==> c2 == c - {b}
  {
    assert c1 - {b} == c - {b};
  }

  /** One calm call takes min(size, n) objects; the bucket goes exactly when that was all of them. */
  lemma CalmDelete(c: Cloud, who: Account, b: string, env: DeleteEnv, size: nat)
    requires Accessible(c, who, b) && Calm(env) && PageOf(env.page, c[b].objects, size)
    ensures var n := |c[b].objects|;
            var (c', ok) := Delete(c, who, b, env);
            if n <= size then c' == c - {b} && ok
            else !ok && OnlyFewerObjects(c, c', b) && |c'[b].objects| == n - size
  {
    PageSize(env.page);
    MapMinus(c[b].objects, Names(env.page));
    assert env.page[..|env.page|] == env.page;
    if |c[b].objects| <= size {
      assert |c[b].objects - Names(env.page)| == 0;
    }
  }

  /** A fault at listed object i leaves exactly the objects before it deleted (and that object too
      when only the answer was lost), keeps the bucket and is reported. */
  lemma FaultyDelete(c: Cloud, who: Account, b: string, env: DeleteEnv, i: nat)
    requires Accessible(c, who, b) && env.list == Answered && i < |env.page|
    requires env.objects(i) != Answered && forall j: nat | j < i :: env.objects(j) == Answered
    ensures var n := if env.objects(i) == Lost then i + 1 else i;
            Delete(c, who, b, env) == (c[b := c[b].(objects := c[b].objects - Names(env.page[..n]))], false)
  {
    assert FirstFault(env.objects, |env.page|) == i;
  }

  /** With every object call answered, a bucket that is not removed has lost exactly the listed
      objects, and that is an error. */
  lemma UnfinishedDelete(c: Cloud, who: Account, b: string, env: DeleteEnv)
    requires Accessible(c, who, b) && env.list == Answered
    requires forall i: nat | i < |env.page| :: env.objects(i) == Answered
    requires env.bucket == Rejected || !(c[b].objects.Keys <= Names(env.page))
    ensures Delete(c, who, b, env) == (c[b := c[b].(objects := c[b].objects - Names(env.page))], false)
  {
    assert env.page[..|env.page|] == env.page;
    NothingLeft(c[b].objects, Names(env.page));
  }

  /** DeleteBucket reports success exactly for a bucket that was not there, which is no error, and for
      one that this call removed and heard so. Without a listing, or without access, nothing is
      touched. */
  lemma DeleteReportsExactly(c: Cloud, who: Account, b: string, env: DeleteEnv)
    ensures Delete(c, who, b, env).1 <==>
            env.list == Answered && (b !in c || (Removes(c, who, b, env) && env.bucket == Answered))
    ensures env.list != Answered || !Accessible(c, who, b) ==> Delete(c, who, b, env).0 == c
  {
    if b in c {
      DeleteRemovesExactly(c, who, b, env);
    }
  }

  /** CreateBucket: what its caller hears, and what is in the store afterwards. The name is there
      unless it was not and the call was rejected; a bucket that was there is as it was, a new one is
      the caller's and empty. */
  lemma CreateAnswers(c: Cloud, who: Account, b: string, outcome: Outcome, smithy: bool)
    ensures var (c', err) := Create(c, who, b, outcome, smithy);
            && (err == None <==> outcome == Answered && (b in c ==> c[b].owner == who))
            && (err == Some(NameTaken(smithy)) <==> outcome == Answered && b in c && c[b].owner != who)
            && (b in c' <==> b in c || outcome != Rejected)
            && (b in c || outcome == Rejected ==> c' == c)
            && (b !in c && b in c' ==> c' - {b} == c && c'[b] == Bucket(who, {}, map[], None, None))
  {
    if b !in c {
      assert c[b := NewBucket(who)] - {b} == c;
    }
  }

  /** Whatever fails, a call removes the bucket exactly when the account can reach it, the list call and
      every object call are answered, the page holds all objects and the last call takes effect. */
  lemma DeleteRemovesExactly(c: Cloud, who: Account, b: string, env: DeleteEnv)
    requires b in c
    ensures b !in Delete(c, who, b, env).0 <==> Removes(c, who, b, env)
  {
    if FirstFault(env.objects, |env.page|) == |env.page| {
      assert env.page[..|env.page|] == env.page;
      NothingLeft(c[b].objects, Names(env.page));
    }
  }

  lemma NothingLeft(m: Objects, keys: set<string>)
    ensures m - keys == map[] <==> m.Keys <= keys
  {
    if m - keys == map[] {
      forall k | k in m ensures k in keys {
        assert k in m && k !in keys ==> k in m - keys;
      }
    } else {
      var k :| k in m - keys;
      assert k in m && k !in keys;
    }
  }

  predicate Removes(c: Cloud, who: Account, b: string, env: DeleteEnv) {
    && env.list == Answered && Accessible(c, who, b)
    && (forall i: nat | i < |env.page| :: env.objects(i) == Answered)
    && c[b].objects.Keys <= Names(env.page) && env.bucket != Rejected
  }

  /** A run of calm calls on one bucket, by any accessing account, with no other writer. */
  ghost predicate CalmRun(clouds: seq<Cloud>, envs: seq<DeleteEnv>, who: Account, b: string, size: nat) {
    && |clouds| == |envs| + 1
    && forall i | 0 <= i < |envs| ::
         && Calm(envs[i])
         && (b in clouds[i] ==> PageOf(envs[i].page, clouds[i][b].objects, size))
         && clouds[i + 1] == Delete(clouds[i], who, b, envs[i]).0
  }

  /** The state after k calls: min(k * size, n) objects are gone, and the bucket itself is gone
      exactly from call max(1, ceil(n / size)) on, with everything else as it was. */
  lemma {:induction false} DeleteConverges(clouds: seq<Cloud>, envs: seq<DeleteEnv>, who: Account, b: string,
                                           size: nat, k: nat)
    requires size > 0 && CalmRun(clouds, envs, who, b, size) && k < |clouds|
    requires Accessible(clouds[0], who, b)
    ensures var n := |clouds[0][b].objects|;
            if k == 0 || k * size < n then
              OnlyFewerObjects(clouds[0], clouds[k], b) && |clouds[k][b].objects| == n - k * size
            else clouds[k] == clouds[0] - {b}
  {
    if k > 0 {
      var n := |clouds[0][b].objects|;
      DeleteConverges(clouds, envs, who, b, size, k - 1);
      assert k * size == (k - 1) * size + size;
      if k == 1 || (k - 1) * size < n {
        CalmDelete(clouds[k - 1], who, b, envs[k - 1], size);
        if k > 1 {
          FewerAgain(clouds[0], clouds[k - 1], clouds[k], b);
        }
      } else {
        assert k * size >= n;
      }
    }
  }

  /** The number of calls after which the bucket is gone. */
  function CallsNeeded(n: nat, size: nat): nat
    requires size > 0
  {
    if n == 0 then 1 else (n + size - 1) / size
  }

  lemma GoneAfterExactly(clouds: seq<Cloud>, envs: seq<DeleteEnv>, who: Account, b: string, size: nat, k: nat)
    requires size > 0 && CalmRun(clouds, envs, who, b, size) && k < |clouds|
    requires Accessible(clouds[0], who, b)
    ensures b !in clouds[k] <==> k >= CallsNeeded(|clouds[0][b].objects|, size)
  {
    var n := |clouds[0][b].objects|;
    DeleteConverges(clouds, envs, who, b, size, k);
    Ceiling(n, size, k);
  }

  lemma Ceiling(n: nat, size: nat, k: nat)
    requires size > 0
    ensures k * size < n <==> k < (n + size - 1) / size
  {
    CeilingBounds(n, size);
    var q := (n + size - 1) / size;
    if k < q {
      MulLe(k, q - 1, size);
    } else {
      MulLe(q, k, size);
    }
  }
}
