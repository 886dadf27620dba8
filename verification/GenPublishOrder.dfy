/** `scripts/gen-publish-order.py`: Kahn's algorithm in sorted batches over
    mutable in-degree counters, and the publishable filter around it. The
    verifier script carries a second copy of the same `topo_order`. */
module GenPublishOrder {
  import opened Prelude
  import opened Names
  import opened DependencyGraph
  import opened Workspace

  /** How many of `m`'s dependencies are still outstanding once `emitted` is out. */
  ghost function Outstanding(g: Graph, emitted: set<string>, m: string): nat {
    |Deps(g, m) - emitted|
  }

  ghost predicate CountersMatch(g: Graph, emitted: set<string>, remaining: map<string, nat>) {
    remaining.Keys == g.names && forall m :: m in g.names ==> remaining[m] == Outstanding(g, emitted, m)
  }

  /** `m` has become ready since the batch that began with `base` emitted. */
  ghost predicate Released(g: Graph, base: set<string>, emitted: set<string>, m: string) {
    m in g.names && Deps(g, m) <= emitted && !(Deps(g, m) <= base)
  }

  ghost predicate ReadyMatches(g: Graph, base: set<string>, emitted: set<string>, ready: seq<string>) {
    NoDuplicates(ready) && forall m :: m in Elements(ready) <==> Released(g, base, emitted, m)
  }

  /** The inner counting loop: one increment for each dependency in the graph. */
  method Tally(names: set<string>, ds: set<string>) returns (deg: nat)
    ensures deg == |ds * names|
  {
    deg := 0;
    var left := ds;
    while left != {}
      invariant left <= ds
      invariant deg == |(ds - left) * names|
      decreases left
    {
      var d :| d in left;
      SeenGrows(ds, left, names, d);
      if d in names {
        deg := deg + 1;
      }
      left := left - {d};
    }
    assert (ds - left) * names == ds * names;
  }

  lemma SeenGrows<T>(ds: set<T>, left: set<T>, names: set<T>, d: T)
    requires left <= ds && d in left
    ensures |(ds - (left - {d})) * names| == |(ds - left) * names| + if d in names then 1 else 0
  {
    var seen := (ds - left) * names;
    if d in names {
      assert (ds - (left - {d})) * names == seen + {d};
    } else {
      assert (ds - (left - {d})) * names == seen;
    }
  }

  method CountInDegrees(names: set<string>, deps: map<string, set<string>>)
    returns (indeg: map<string, nat>)
    ensures CountersMatch(Graph(names, deps), {}, indeg)
  {
    indeg := map n | n in names :: 0;
    var todo := names;
    while todo != {}
      invariant todo <= names && indeg.Keys == names
      invariant forall n :: n in names - todo ==> indeg[n] == Outstanding(Graph(names, deps), {}, n)
      decreases todo
    {
      var n :| n in todo;
      var deg := Tally(names, Get(deps, n));
      assert Deps(Graph(names, deps), n) - {} == Get(deps, n) * names;
      indeg := indeg[n := deg];
      todo := todo - {n};
    }
  }

  /** `users` are the crates that depend on `n`. */
  ghost predicate UsersOf(g: Graph, n: string, users: set<string>) {
    forall m :: m in users <==> m in g.names && n in Deps(g, m)
  }

  ghost predicate Reverses(g: Graph, dependents: map<string, set<string>>) {
    forall d :: UsersOf(g, d, Get(dependents, d))
  }

  method ReverseEdges(names: set<string>, deps: map<string, set<string>>)
    returns (dependents: map<string, set<string>>)
    ensures Reverses(Graph(names, deps), dependents)
  {
    dependents := map[];
    ghost var g := Graph(names, deps);
    var todo := names;
    assert forall d, n :: n in Get(dependents, d) ==> false;
    while todo != {}
      invariant todo <= names
      invariant forall d, n :: n in Get(dependents, d) <==> n in names - todo && d in Deps(g, n)
      decreases todo
    {
      var n :| n in todo;
      ghost var before := dependents;
      dependents := AddReverse(names, dependents, n, Get(deps, n));
      assert Get(deps, n) * names == Deps(g, n);
      assert forall d, x :: x in Get(dependents, d) <==> x in Get(before, d) || (x == n && d in Deps(g, x));
      assert forall x :: x in names - (todo - {n}) <==> x in names - todo || x == n;
      todo := todo - {n};
    }
    assert names - todo == names;
  }

  /** The inner loop: `dependents[d].add(n)` for each dependency in the graph. */
  method AddReverse(names: set<string>, dependents0: map<string, set<string>>, n: string, ds: set<string>)
    returns (dependents: map<string, set<string>>)
    ensures forall d, m :: m in Get(dependents, d) <==>
                             m in Get(dependents0, d) || (m == n && d in ds * names)
  {
    dependents := dependents0;
    var left := ds;
    while left != {}
      invariant left <= ds
      invariant forall d, m :: m in Get(dependents, d) <==>
                                 m in Get(dependents0, d) || (m == n && d in (ds - left) * names)
      decreases left
    {
      var d :| d in left;
      ghost var before := dependents;
      left := left - {d};
      if d in names {
        var added := Get(dependents, d) + {n};
        dependents := dependents[d := added];
        assert forall e :: Get(dependents, e) == if e == d then added else Get(before, e);
      }
    }
  }

  lemma OneFewer(g: Graph, emitted: set<string>, n: string, m: string)
    requires n !in emitted
    ensures Outstanding(g, emitted + {n}, m) ==
            if n in Deps(g, m) then Outstanding(g, emitted, m) - 1 else Outstanding(g, emitted, m)
    ensures n in Deps(g, m) ==> Outstanding(g, emitted, m) > 0
    ensures Outstanding(g, emitted + {n}, m) == 0 <==> Deps(g, m) <= emitted + {n}
  {
    var a, b := Deps(g, m) - emitted, Deps(g, m) - (emitted + {n});
    if n in Deps(g, m) {
      assert a == b + {n};
    } else {
      assert a == b;
    }
    assert b == {} <==> Deps(g, m) <= emitted + {n};
  }

  /** Midway through releasing the dependents of `n`: the crates in `done` count
      `n` as emitted, the others do not yet. */
  ghost predicate CountersMidway(g: Graph, emitted: set<string>, n: string, done: set<string>,
                                 remaining: map<string, nat>) {
    && remaining.Keys == g.names
    && forall m :: m in g.names ==>
                     remaining[m] == Outstanding(g, if m in done then emitted + {n} else emitted, m)
  }

  ghost predicate ReadyMidway(g: Graph, base: set<string>, emitted: set<string>, n: string, done: set<string>,
                              ready: seq<string>) {
    && NoDuplicates(ready)
    && forall m :: m in Elements(ready) <==>
                     Released(g, base, if m in done then emitted + {n} else emitted, m)
  }

  lemma MidwayStart(g: Graph, base: set<string>, emitted: set<string>, n: string,
                    remaining: map<string, nat>, ready: seq<string>)
    requires CountersMatch(g, emitted, remaining) && ReadyMatches(g, base, emitted, ready)
    ensures CountersMidway(g, emitted, n, {}, remaining)
    ensures ReadyMidway(g, base, emitted, n, {}, ready)
  {
  }

  lemma MidwayDone(g: Graph, base: set<string>, emitted: set<string>, n: string, users: set<string>,
                   remaining: map<string, nat>, ready: seq<string>)
    requires n !in emitted
    requires UsersOf(g, n, users)
    requires CountersMidway(g, emitted, n, users, remaining)
    requires ReadyMidway(g, base, emitted, n, users, ready)
    ensures CountersMatch(g, emitted + {n}, remaining) && ReadyMatches(g, base, emitted + {n}, ready)
  {
    CountersDone(g, emitted, n, users, remaining);
    ReadyDone(g, base, emitted, n, users, ready);
    hide CountersMatch, ReadyMatches;
  }

  lemma CountersDone(g: Graph, emitted: set<string>, n: string, users: set<string>, remaining: map<string, nat>)
    requires n !in emitted && UsersOf(g, n, users) && CountersMidway(g, emitted, n, users, remaining)
    ensures CountersMatch(g, emitted + {n}, remaining)
  {
    hide Outstanding, Deps;
    forall m | m in g.names ensures remaining[m] == Outstanding(g, emitted + {n}, m) {
      OneFewer(g, emitted, n, m);
    }
  }

  lemma ReadyDone(g: Graph, base: set<string>, emitted: set<string>, n: string, users: set<string>, ready: seq<string>)
    requires UsersOf(g, n, users) && ReadyMidway(g, base, emitted, n, users, ready)
    ensures ReadyMatches(g, base, emitted + {n}, ready)
  {
    hide Released, Deps, NoDuplicates, Elements;
    forall m ensures m in Elements(ready) <==> Released(g, base, emitted + {n}, m) {
      if m !in users { ReleasedSame(g, base, emitted, n, m); }
    }
  }

  /** A crate that does not depend on `n` is not released by it. */
  lemma ReleasedSame(g: Graph, base: set<string>, emitted: set<string>, n: string, m: string)
    requires m in g.names ==> n !in Deps(g, m)
    ensures Released(g, base, emitted, m) <==> Released(g, base, emitted + {n}, m)
  {
  }

  lemma CountStep(g: Graph, emitted: set<string>, n: string, done: set<string>, remaining: map<string, nat>, m: string)
    requires n !in emitted && m in g.names && n in Deps(g, m) && m !in done
    requires CountersMidway(g, emitted, n, done, remaining)
    ensures m in remaining && remaining[m] > 0
    ensures CountersMidway(g, emitted, n, done + {m}, remaining[m := remaining[m] - 1])
    ensures remaining[m] - 1 == 0 <==> Deps(g, m) <= emitted + {n}
  {
    hide Outstanding;

    OneFewer(g, emitted, n, m);
    var next := remaining[m := remaining[m] - 1];
    forall x | x in g.names
      ensures next[x] == Outstanding(g, if x in done + {m} then emitted + {n} else emitted, x)
    {
      assert x != m ==> (x in done + {m} <==> x in done);
    }
  }

  lemma ReadyStep(g: Graph, base: set<string>, emitted: set<string>, n: string, done: set<string>,
                  ready: seq<string>, m: string)
    requires base <= emitted && n !in emitted && m in g.names && n in Deps(g, m) && m !in done
    requires ReadyMidway(g, base, emitted, n, done, ready)
    ensures ReadyMidway(g, base, emitted, n, done + {m},
                        if Deps(g, m) <= emitted + {n} then ready + [m] else ready)
  {
    assert !Released(g, base, emitted, m);
    if Deps(g, m) <= emitted + {n} {
      NoDuplicatesAppend(ready, m);
    }
  }

  /** The inner loop: after `n` is emitted, decrement everything that depends on
      it, appending to the deque whatever reaches zero. */
  method ReleaseDependents(ghost g: Graph, ghost base: set<string>, ghost emitted: set<string>, n: string,
                           users: set<string>, remaining0: map<string, nat>, ready0: seq<string>)
    returns (remaining: map<string, nat>, ready: seq<string>)
    requires base <= emitted && n !in emitted
    requires UsersOf(g, n, users)
    requires CountersMatch(g, emitted, remaining0) && ReadyMatches(g, base, emitted, ready0)
    ensures CountersMatch(g, emitted + {n}, remaining) && ReadyMatches(g, base, emitted + {n}, ready)
  {
    hide Outstanding, Released, CountersMidway, ReadyMidway;
    remaining, ready := remaining0, ready0;
    var sorted := SortSet(users);
    AscendingNoDuplicates(sorted);
    assert Elements(sorted[..0]) == {};
    MidwayStart(g, base, emitted, n, remaining, ready);
    for i := 0 to |sorted|
      invariant CountersMidway(g, emitted, n, Elements(sorted[..i]), remaining)
      invariant ReadyMidway(g, base, emitted, n, Elements(sorted[..i]), ready)
    {
      var m := sorted[i];
      ghost var done := Elements(sorted[..i]);
      MemberAt(sorted, i);
      ElementsOfPrefix(sorted, i);
      CountStep(g, emitted, n, done, remaining, m);
      ReadyStep(g, base, emitted, n, done, ready, m);
      remaining := remaining[m := remaining[m] - 1];
      if remaining[m] == 0 {
        ready := ready + [m];
      }
    }
    assert sorted[..|sorted|] == sorted;
    MidwayDone(g, base, emitted, n, users, remaining, ready);
  }

  lemma ElementsOfPrefix<T>(s: seq<T>, i: nat)
    requires i < |s|
    ensures Elements(s[..i + 1]) == Elements(s[..i]) + {s[i]}
    ensures NoDuplicates(s) ==> s[i] !in Elements(s[..i])
  {
    assert s[..i + 1] == s[..i] + [s[i]];
    ElementsAppend(s[..i], s[i]);
  }

  lemma NothingReleased(g: Graph, base: set<string>)
    ensures ReadyMatches(g, base, base, [])
  {
  }

  /** One pass of the outer loop: emit a sorted batch, releasing as it goes. */
  method EmitBatch(ghost g: Graph, ghost k: nat, dependents: map<string, set<string>>, batch: seq<string>,
                   order0: seq<string>, remaining0: map<string, nat>)
    returns (order: seq<string>, remaining: map<string, nat>, ready: seq<string>)
    requires Reverses(g, dependents)
    requires batch == SortedNames(Batch(g, k))
    requires CountersMatch(g, Done(g, k), remaining0)
    ensures order == order0 + batch
    ensures CountersMatch(g, Done(g, k + 1), remaining)
    ensures ReadyMatches(g, Done(g, k), Done(g, k + 1), ready)
  {
    hide Outstanding, Deps, CountersMatch, ReadyMatches, Released, UsersOf, Done, Elements, Ascending, NoDuplicates;
    order, remaining, ready := order0, remaining0, [];
    ghost var base := Done(g, k);
    DoneGrows(g, k);
    AscendingNoDuplicates(batch);
    ElementsEmpty(batch[..0]);
    assert base + Elements(batch[..0]) == base;
    NothingReleased(g, base);
    for i := 0 to |batch|
      invariant order == order0 + batch[..i]
      invariant CountersMatch(g, base + Elements(batch[..i]), remaining)
      invariant ReadyMatches(g, base, base + Elements(batch[..i]), ready)
    {
      var n := batch[i];
      ghost var emitted := base + Elements(batch[..i]);
      MemberAt(batch, i);
      ElementsOfPrefix(batch, i);
      assert base + Elements(batch[..i + 1]) == emitted + {n};
      order := order + [n];
      remaining, ready := ReleaseDependents(g, base, emitted, n, Get(dependents, n), remaining, ready);
    }
    assert batch[..|batch|] == batch;
    assert base + Elements(batch) == Done(g, k + 1);
  }

  /** When a batch is complete, the deque holds exactly the next batch. */
  lemma ReadyIsNextBatch(g: Graph, k: nat, ready: seq<string>)
    requires ReadyMatches(g, Done(g, k), Done(g, k + 1), ready)
    ensures NoDuplicates(ready) && Elements(ready) == Batch(g, k + 1)
  {
    forall m ensures m in Elements(ready) <==> m in Batch(g, k + 1) {
      assert m in Elements(ready) <==> Released(g, Done(g, k), Done(g, k + 1), m);
    }
  }

  lemma Regroup(a: seq<string>, b: seq<string>, c: seq<string>)
    ensures a + (b + c) == a + b + c
  {
  }

  lemma OrderStep(g: Graph, k: nat, order: seq<string>)
    requires order + OrderFrom(g, k) == Order(g)
    ensures Batch(g, k) != {} ==> order + SortedNames(Batch(g, k)) + OrderFrom(g, k + 1) == Order(g)
    ensures Batch(g, k) == {} ==> order == Order(g)
  {
    if Batch(g, k) != {} {
      Regroup(order, SortedNames(Batch(g, k)), OrderFrom(g, k + 1));
    }
  }

  /** The state of the main loop: batch `k` is ready, the ones before are emitted. */
  ghost predicate AtBatch(g: Graph, k: nat, order: seq<string>, remaining: map<string, nat>, ready: seq<string>) {
    && NoDuplicates(ready) && Elements(ready) == Batch(g, k)
    && CountersMatch(g, Done(g, k), remaining)
    && order + OrderFrom(g, k) == Order(g)
  }

  lemma AtStart(g: Graph, indeg: map<string, nat>, zero: set<string>, ready: seq<string>)
    requires CountersMatch(g, {}, indeg) && ready == SortedNames(zero)
    requires forall n :: n in zero <==> n in g.names && indeg[n] == 0
    ensures AtBatch(g, 0, [], indeg, ready)
  {
    assert Done(g, 0) == {};
    InitiallyReady(g, indeg, zero);
    AscendingNoDuplicates(ready);
    hide CountersMatch, OrderFrom, Done, Batch, NoDuplicates, Ascending;
    assert [] + OrderFrom(g, 0) == Order(g);
  }

  lemma ReadyBatch(g: Graph, k: nat, order: seq<string>, remaining: map<string, nat>, ready: seq<string>)
    requires AtBatch(g, k, order, remaining, ready)
    ensures Sort(ready) == SortedNames(Batch(g, k)) && CountersMatch(g, Done(g, k), remaining)
    ensures ready == [] <==> Batch(g, k) == {}
    ensures ready != [] ==> |Done(g, k)| < |Done(g, k + 1)| <= |g.names|
  {
    hide CountersMatch, OrderFrom, Done, Batch, NoDuplicates, Elements;
    SortIsSortedNames(ready);
    ElementsEmpty(ready);
    if ready != [] { BatchShrinksRest(g, k); }
  }

  lemma AtNext(g: Graph, k: nat, order: seq<string>, remaining: map<string, nat>, ready: seq<string>,
               remaining': map<string, nat>, ready': seq<string>)
    requires AtBatch(g, k, order, remaining, ready) && ready != []
    requires CountersMatch(g, Done(g, k + 1), remaining') && ReadyMatches(g, Done(g, k), Done(g, k + 1), ready')
    ensures AtBatch(g, k + 1, order + SortedNames(Batch(g, k)), remaining', ready')
  {
    hide CountersMatch, ReadyMatches, OrderFrom, Done, Batch, NoDuplicates, Elements;
    ReadyBatch(g, k, order, remaining, ready);
    OrderStep(g, k, order);
    ReadyIsNextBatch(g, k, ready');
  }

  lemma AtEnd(g: Graph, k: nat, order: seq<string>, remaining: map<string, nat>, ready: seq<string>)
    requires AtBatch(g, k, order, remaining, ready) && ready == []
    ensures order == Order(g) && remaining.Keys == g.names
    ensures forall n :: n in Stuck(g) <==> n in g.names && remaining[n] > 0
  {
    hide OrderFrom, Done, Batch, NoDuplicates, Elements;
    ReadyBatch(g, k, order, remaining, ready);
    OrderStep(g, k, order);
    ZeroIsReady(g, Done(g, k), remaining);
    StillCounted(g, k, remaining, set n | n in g.names && remaining[n] > 0);
  }

  /** Kahn's algorithm in batches. The result is the layered order of the graph
      whatever order the sets are iterated in, and it always terminates. */
  method TopoOrder(names: set<string>, deps: map<string, set<string>>)
    returns (order: seq<string>, cycleMembers: seq<string>)
    ensures order == Order(Graph(names, deps))
    ensures cycleMembers == SortedNames(Stuck(Graph(names, deps)))
  {
    hide AtBatch, Outstanding, Deps, OrderFrom, Order, ReadyMatches, Done, Batch, NoDuplicates, Reverses, Elements,
         Ascending, Settled, Stuck;
    ghost var g := Graph(names, deps);
    var indeg := CountInDegrees(names, deps);
    var dependents := ReverseEdges(names, deps);
    var zero := set n | n in names && indeg[n] == 0;
    var ready := SortSet(zero);
    order := [];
    var remaining := indeg;
    ghost var k: nat := 0;
    AtStart(g, indeg, zero, ready);
    while ready != []
      invariant AtBatch(g, k, order, remaining, ready)
      decreases |g.names| - |Done(g, k)|
    {
      ReadyBatch(g, k, order, remaining, ready);
      var batch := Sort(ready);
      ghost var order0, remaining0, ready0 := order, remaining, ready;
      order, remaining, ready := EmitBatch(g, k, dependents, batch, order, remaining);
      AtNext(g, k, order0, remaining0, ready0, remaining, ready);
      k := k + 1;
    }
    AtEnd(g, k, order, remaining, ready);
    var left := set n | n in names && remaining[n] > 0;
    assert left == Stuck(g);
    cycleMembers := SortSet(left);
  }

  lemma BatchShrinksRest(g: Graph, k: nat)
    requires Batch(g, k) != {}
    ensures |Done(g, k)| < |Done(g, k + 1)| <= |g.names|
  {
    DoneGrows(g, k);
    SubsetSize(Done(g, k), Done(g, k + 1));
    SubsetSize(Done(g, k + 1), g.names);
  }

  lemma ZeroIsReady(g: Graph, emitted: set<string>, remaining: map<string, nat>)
    requires CountersMatch(g, emitted, remaining)
    ensures remaining.Keys == g.names
    ensures forall n :: n in g.names ==> (remaining[n] == 0 <==> Deps(g, n) <= emitted)
  {
    forall n | n in g.names ensures remaining[n] == 0 <==> Deps(g, n) <= emitted {
      NoneOutstanding(g, emitted, n);
    }
  }

  lemma NoneOutstanding(g: Graph, emitted: set<string>, n: string)
    ensures Outstanding(g, emitted, n) == 0 <==> Deps(g, n) <= emitted
  {
    var left := Deps(g, n) - emitted;
    if left == {} {
      forall d | d in Deps(g, n) ensures d in emitted {
        assert d !in left;
      }
    }
  }

  lemma InitiallyReady(g: Graph, indeg: map<string, nat>, zero: set<string>)
    requires CountersMatch(g, {}, indeg)
    requires forall n :: n in zero <==> n in g.names && indeg[n] == 0
    ensures zero == Batch(g, 0)
  {
    ZeroIsReady(g, {}, indeg);
    hide CountersMatch;
    forall n ensures n in zero <==> n in Batch(g, 0) {
    }
  }

  lemma StillCounted(g: Graph, k: nat, remaining: map<string, nat>, left: set<string>)
    requires CountersMatch(g, Done(g, k), remaining) && Batch(g, k) == {}
    requires forall n :: n in left <==> n in g.names && remaining[n] > 0
    ensures left == Stuck(g)
  {
    hide Done;
    StoppedIsSettled(g, k);
    ZeroIsReady(g, Done(g, k), remaining);
    hide CountersMatch, Outstanding, Deps, Done;
    forall n ensures n in left <==> n in Stuck(g) {
      DoneNext(g, k, n);
    }
  }

  lemma DoneNext(g: Graph, k: nat, n: string)
    requires Batch(g, k) == {}
    ensures n in Done(g, k) <==> n in g.names && Deps(g, n) <= Done(g, k)
  {
    DoneGrows(g, k);
    assert Done(g, k + 1) == Done(g, k) by {
      assert Done(g, k + 1) - Done(g, k) == {};
    }
  }

  // ------------------------------------------------------------------ main

  /** The generator's rule: unset, or a non-empty list of registries. */
  predicate GenPublishable(p: Package) {
    p.publish == None || p.publish != Some([])
  }

  /** `[n for n in order if n in keep]` */
  function FilterNames(order: seq<string>, keep: set<string>): seq<string> {
    if order == [] then []
    else (if order[0] in keep then [order[0]] else []) + FilterNames(order[1..], keep)
  }

  /** The filter keeps exactly the wanted names, each in its original place
      relative to the others. */
  lemma {:induction false} FilterKeepsOrder(order: seq<string>, keep: set<string>)
    requires NoDuplicates(order)
    ensures NoDuplicates(FilterNames(order, keep))
    ensures forall n :: n in FilterNames(order, keep) <==> n in order && n in keep
    ensures forall i, j :: 0 <= i < j < |FilterNames(order, keep)| ==>
                             ComesBefore(order, FilterNames(order, keep)[i], FilterNames(order, keep)[j])
  {
    if order != [] {
      var t := FilterNames(order[1..], keep);
      FilterKeepsOrder(order[1..], keep);
      var r := FilterNames(order, keep);
      assert order[0] !in order[1..];
      forall a, b | ComesBefore(order[1..], a, b) ensures ComesBefore(order, a, b) {
        var i, j :| 0 <= i < j < |order[1..]| && order[1..][i] == a && order[1..][j] == b;
        assert order[i + 1] == a && order[j + 1] == b;
      }
      if order[0] in keep {
        assert r == [order[0]] + t;
        forall j | 0 <= j < |t| ensures ComesBefore(order, order[0], t[j]) {
          assert t[j] in order[1..];
          var k :| 0 <= k < |order[1..]| && order[1..][k] == t[j];
          assert order[k + 1] == t[j];
        }
      }
    }
  }

  ghost predicate ComesBefore(s: seq<string>, a: string, b: string) {
    exists i, j :: 0 <= i < j < |s| && s[i] == a && s[j] == b
  }

  /** The contents of `publish-order.txt`, as a function of the metadata alone. */
  ghost function PublishOrder(m: Metadata): seq<string> {
    FilterNames(Order(GraphOf(m)), PublishableOf(m, GenPublishable))
  }

  lemma {:induction false} SameEdgesSameDone(a: Graph, b: Graph, k: nat)
    requires a.names == b.names && SameEdges(a.deps, b.deps)
    ensures Done(a, k) == Done(b, k)
  {
    if k > 0 { SameEdgesSameDone(a, b, k - 1); }
  }

  lemma {:induction false} SameEdgesSameOrder(a: Graph, b: Graph, k: nat)
    requires a.names == b.names && SameEdges(a.deps, b.deps)
    ensures OrderFrom(a, k) == OrderFrom(b, k) && Stuck(a) == Stuck(b)
    decreases |a.names| - |Done(a, k)|
  {
    SameEdgesSameDone(a, b, k);
    SameEdgesSameDone(a, b, k + 1);
    SameEdgesSameDone(a, b, |a.names|);
    if Batch(a, k) != {} {
      BatchShrinksRest(a, k);
      SameEdgesSameOrder(a, b, k + 1);
    }
  }

  /** `main`: fail with the cycle members, or give the filtered order. */
  method Generate(m: Metadata) returns (r: Result<seq<string>, seq<string>>)
    requires UniqueNames(m)
    ensures r.Success? <==> Acyclic(GraphOf(m))
    ensures r.Success? ==> r.value == PublishOrder(m)
    ensures r.Failure? ==>
              Ascending(r.error) &&
              forall n :: n in r.error <==> n in WorkspaceNames(m) && DependsOnCycle(GraphOf(m), n)
  {
    var wsNames, deps, publishable := BuildGraph(m, GenPublishable);
    var order, cycleMembers := TopoOrder(wsNames, deps);
    SameEdgesSameOrder(Graph(wsNames, deps), GraphOf(m), 0);
    StuckEmptyIffAcyclic(GraphOf(m));
    ElementsEmpty(cycleMembers);
    if cycleMembers != [] {
      forall n ensures n in cycleMembers <==> n in WorkspaceNames(m) && DependsOnCycle(GraphOf(m), n) {
        assert n in cycleMembers <==> n in Elements(cycleMembers);
        if n in WorkspaceNames(m) { StuckIffDependsOnCycle(GraphOf(m), n); }
      }
      return Failure(cycleMembers);
    }
    var publishableNames := set n | n in publishable && publishable[n];
    r := Success(FilterNames(order, publishableNames));
  }
}
