/** Option lists read as maps: a later setting of a name replaces an earlier one. */
module LastWins {

  datatype Setting = Setting(name: string, value: string)

  type Bindings = map<string, string>

  /** Appending what a loop body contributes for each element, in order. */
  function Collect<A, B>(f: A -> seq<B>, xs: seq<A>): seq<B> {
    if xs == [] then [] else Collect(f, xs[..|xs| - 1]) + f(xs[|xs| - 1])
  }

  lemma {:induction false} CollectConcat<A, B>(f: A -> seq<B>, a: seq<A>, b: seq<A>)
    ensures Collect(f, a + b) == Collect(f, a) + Collect(f, b)
  {
    if b == [] {
      assert a + b == a;
    } else {
      var n := |b| - 1;
      CollectConcat(f, a, b[..n]);
      assert (a + b)[..|a + b| - 1] == a + b[..n];
    }
  }

  lemma CollectOne<A, B>(f: A -> seq<B>, x: A)
    ensures Collect(f, [x]) == f(x)
  {
    assert [x][..0] == [] && Collect(f, []) == [];
  }

  /** One more turn of the loop. */
  lemma CollectStep<A, B>(f: A -> seq<B>, xs: seq<A>, i: nat)
    requires i < |xs|
    ensures Collect(f, xs[..i + 1]) == Collect(f, xs[..i]) + f(xs[i])
  {
    assert xs[..i + 1][..i] == xs[..i];
  }

  /** Loops whose bodies contribute the same contribute the same in total. */
  lemma {:induction false} CollectElementwise<A, B>(f: A -> seq<B>, xs: seq<A>, ys: seq<B>)
    requires |ys| == |xs|
    requires forall i | 0 <= i < |xs| :: f(xs[i]) == [ys[i]]
    ensures Collect(f, xs) == ys
  {
    if xs != [] {
      var n := |xs| - 1;
      CollectElementwise(f, xs[..n], ys[..n]);
      assert ys == ys[..n] + [ys[n]];
    }
  }

  lemma {:induction false} CollectedFrom<A, B>(f: A -> seq<B>, xs: seq<A>, y: B) returns (x: A)
    requires y in Collect(f, xs)
    ensures x in xs && y in f(x)
  {
    var n := |xs| - 1;
    if y in f(xs[n]) {
      x := xs[n];
    } else {
      x := CollectedFrom(f, xs[..n], y);
    }
  }

  lemma {:induction false} CollectContains<A, B>(f: A -> seq<B>, xs: seq<A>, x: A, y: B)
    requires x in xs && y in f(x)
    ensures y in Collect(f, xs)
  {
    var n := |xs| - 1;
    if x != xs[n] {
      assert x in xs[..n];
      CollectContains(f, xs[..n], x, y);
    }
  }

  lemma TakeDrop<T>(xs: seq<T>, i: nat)
    requires i <= |xs|
    ensures xs[..i] + xs[i..] == xs
  {
  }

  lemma CollectMiddle<A, B>(f: A -> seq<B>, xs: seq<A>, i: nat)
    requires i < |xs|
    ensures Collect(f, xs) == Collect(f, xs[..i]) + f(xs[i]) + Collect(f, xs[i + 1..])
  {
    CollectStep(f, xs, i);
    CollectConcat(f, xs[..i + 1], xs[i + 1..]);
    TakeDrop(xs, i + 1);
  }

  lemma CollectWithout<A, B>(f: A -> seq<B>, xs: seq<A>, i: nat)
    requires i < |xs|
    ensures multiset(Collect(f, xs)) == multiset(Collect(f, xs[..i] + xs[i + 1..])) + multiset(f(xs[i]))
  {
    CollectMiddle(f, xs, i);
    CollectConcat(f, xs[..i], xs[i + 1..]);
    MiddleOut(Collect(f, xs[..i]), f(xs[i]), Collect(f, xs[i + 1..]));
  }

  lemma MiddleOut<T>(a: seq<T>, b: seq<T>, c: seq<T>)
    ensures multiset(a + b + c) == multiset(a + c) + multiset(b)
  {
  }

  lemma MultisetWithout<T>(ys: seq<T>, i: nat)
    requires i < |ys|
    ensures multiset(ys) == multiset(ys[..i] + ys[i + 1..]) + multiset{ys[i]}
  {
    assert ys == ys[..i] + [ys[i]] + ys[i + 1..];
    MiddleOut(ys[..i], [ys[i]], ys[i + 1..]);
  }

  lemma Cancel<T>(a: multiset<T>, b: multiset<T>, x: T)
    requires a + multiset{x} == b + multiset{x}
    ensures a == b
  {
    assert a == (a + multiset{x}) - multiset{x};
  }

  /** Two listings of the same elements still are when the last of one leaves both. */
  lemma WithoutLast<T>(xs: seq<T>, ys: seq<T>) returns (i: nat)
    requires multiset(xs) == multiset(ys) && xs != []
    ensures i < |ys| && ys[i] == xs[|xs| - 1]
    ensures multiset(xs[..|xs| - 1]) == multiset(ys[..i] + ys[i + 1..])
  {
    var n := |xs| - 1;
    assert xs[n] in multiset(ys);
    i :| 0 <= i < |ys| && ys[i] == xs[n];
    MultisetWithout(ys, i);
    MultisetWithout(xs, n);
    assert xs[..n] + xs[n + 1..] == xs[..n];
    Cancel(multiset(xs[..n]), multiset(ys[..i] + ys[i + 1..]), xs[n]);
  }

  /** The order of the walk does not change which contributions are made, nor how often. */
  lemma {:induction false} CollectPermuted<A, B>(f: A -> seq<B>, xs: seq<A>, ys: seq<A>)
    requires multiset(xs) == multiset(ys)
    ensures multiset(Collect(f, xs)) == multiset(Collect(f, ys))
    decreases |xs|
  {
    if xs == [] {
      assert |multiset(ys)| == 0;
    } else {
      var i := WithoutLast(xs, ys);
      CollectPermuted(f, xs[..|xs| - 1], ys[..i] + ys[i + 1..]);
      CollectWithout(f, ys, i);
    }
  }

  /** Go leaves the iteration order of a map open; an order is any listing of each key once. */
  ghost predicate Enumerates(order: seq<string>, keys: set<string>) {
    multiset(order) == multiset(keys)
  }

  lemma EnumeratesMembers(order: seq<string>, keys: set<string>)
    requires Enumerates(order, keys)
    ensures forall k :: k in order <==> k in keys
  {
    forall k ensures k in order <==> k in keys {
      assert k in order <==> k in multiset(order);
      assert k in keys <==> k in multiset(keys);
    }
  }

  function Fold(ps: seq<Setting>): Bindings {
    if ps == [] then map[]
    else
      var p := ps[|ps| - 1];
      Fold(ps[..|ps| - 1])[p.name := p.value]
  }

  predicate LastFor(ps: seq<Setting>, i: nat, k: string) {
    i < |ps| && ps[i].name == k && forall j | i < j < |ps| :: ps[j].name != k
  }

  lemma FoldSnoc(ps: seq<Setting>, p: Setting)
    ensures Fold(ps + [p]) == Fold(ps)[p.name := p.value]
  {
    assert (ps + [p])[..|ps + [p]| - 1] == ps;
  }

  lemma {:induction false} FoldNames(ps: seq<Setting>, k: string)
    ensures k in Fold(ps) <==> exists i :: 0 <= i < |ps| && ps[i].name == k
  {
    if ps != [] {
      var n := |ps| - 1;
      FoldNames(ps[..n], k);
      assert ps == ps[..n] + [ps[n]];
    }
  }

  /** A last setting of another name changes nothing for k. */
  lemma LastForSkips(ps: seq<Setting>, k: string)
    requires ps != [] && ps[|ps| - 1].name != k
    ensures forall i: nat :: LastFor(ps, i, k) <==> LastFor(ps[..|ps| - 1], i, k)
  {
  }

  lemma {:induction false} FoldTakesLast(ps: seq<Setting>, i: nat, k: string)
    requires LastFor(ps, i, k)
    ensures k in Fold(ps) && Fold(ps)[k] == ps[i].value
  {
    var n := |ps| - 1;
    if i < n {
      LastForSkips(ps, k);
      FoldTakesLast(ps[..n], i, k);
    }
  }

  lemma {:induction false} SomeLast(ps: seq<Setting>, i: nat, k: string) returns (j: nat)
    requires i < |ps| && ps[i].name == k
    ensures LastFor(ps, j, k)
  {
    var n := |ps| - 1;
    if ps[n].name == k {
      j := n;
    } else {
      j := SomeLast(ps[..n], i, k);
    }
  }

  /** A name is bound exactly when some setting names it, and to the value of the last one. */
  lemma FoldBinds(ps: seq<Setting>, k: string)
    ensures k in Fold(ps) <==> exists i :: 0 <= i < |ps| && ps[i].name == k
    ensures forall i: nat | LastFor(ps, i, k) :: k in Fold(ps) && Fold(ps)[k] == ps[i].value
    ensures k in Fold(ps) ==> exists i: nat :: LastFor(ps, i, k)
  {
    FoldNames(ps, k);
    forall i: nat | LastFor(ps, i, k) ensures k in Fold(ps) && Fold(ps)[k] == ps[i].value {
      FoldTakesLast(ps, i, k);
    }
    if i :| 0 <= i < |ps| && ps[i].name == k {
      var _ := SomeLast(ps, i, k);
    }
  }

  lemma UpdateRight(a: Bindings, b: Bindings, k: string, v: string)
    ensures a + b[k := v] == (a + b)[k := v]
  {
  }

  lemma {:induction false} FoldConcat(a: seq<Setting>, b: seq<Setting>)
    ensures Fold(a + b) == Fold(a) + Fold(b)
  {
    if b == [] {
      assert a + b == a;
    } else {
      var n := |b| - 1;
      FoldConcat(a, b[..n]);
      FoldSnoc(a + b[..n], b[n]);
      FoldSnoc(b[..n], b[n]);
      UpdateRight(Fold(a), Fold(b[..n]), b[n].name, b[n].value);
      assert a + b == a + b[..n] + [b[n]] && b == b[..n] + [b[n]];
    }
  }

  function MapValues(f: string -> string, m: Bindings): Bindings {
    map k | k in m :: f(m[k])
  }

  function MapSettings(f: string -> string, ps: seq<Setting>): seq<Setting> {
    seq(|ps|, i requires 0 <= i < |ps| => Setting(ps[i].name, f(ps[i].value)))
  }

  /** Rewriting values commutes with taking the last one. */
  lemma {:induction false} FoldMapValues(f: string -> string, ps: seq<Setting>)
    ensures Fold(MapSettings(f, ps)) == MapValues(f, Fold(ps))
  {
    if ps != [] {
      var n := |ps| - 1;
      FoldMapValues(f, ps[..n]);
      assert MapSettings(f, ps)[..n] == MapSettings(f, ps[..n]);
    }
  }

  function Listing(order: seq<string>, m: Bindings): seq<Setting>
    requires forall k | k in order :: k in m
  {
    seq(|order|, i requires 0 <= i < |order| => Setting(order[i], m[order[i]]))
  }

  /** Listing a map in any order and reading it back loses nothing. */
  lemma {:induction false} FoldListing(order: seq<string>, m: Bindings)
    requires forall k | k in order :: k in m
    ensures Fold(Listing(order, m)) == map k | k in order :: m[k]
  {
    if order != [] {
      var n := |order| - 1;
      FoldListing(order[..n], m);
      assert Listing(order, m)[..n] == Listing(order[..n], m);
      assert order == order[..n] + [order[n]];
    }
  }

  lemma FoldEnumeration(order: seq<string>, m: Bindings)
    requires Enumerates(order, m.Keys)
    ensures forall k :: k in order <==> k in m
    ensures Fold(Listing(order, m)) == m
  {
    EnumeratesMembers(order, m.Keys);
    FoldListing(order, m);
  }
}
