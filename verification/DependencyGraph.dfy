/** Finite dependency graphs, dependency chains and cycles, and the layered
    order that a batched Kahn sort produces. */
module DependencyGraph {
  import opened Names

  datatype Graph = Graph(names: set<string>, deps: map<string, set<string>>)

  /** `deps.get(n, ())` */
  function Get(deps: map<string, set<string>>, n: string): set<string> {
    if n in deps then deps[n] else {}
  }

  /** The dependencies of `n` that are themselves in the graph. */
  function Deps(g: Graph, n: string): set<string> {
    Get(g.deps, n) * g.names
  }

  // ---------------------------------------------------------------- chains

  /** `c[0]` depends on `c[1]`, which depends on `c[2]`, and so on. */
  ghost predicate Chain(g: Graph, c: seq<string>) {
    && c != []
    && (forall i :: 0 <= i < |c| ==> c[i] in g.names)
    && (forall i :: 0 <= i < |c| - 1 ==> c[i + 1] in Deps(g, c[i]))
  }

  ghost predicate ChainFrom(g: Graph, n: string, c: seq<string>) {
    Chain(g, c) && c[0] == n
  }

  /** A chain with at least one edge that returns to its start. */
  ghost predicate Cycle(g: Graph, c: seq<string>) {
    Chain(g, c) && |c| >= 2 && c[|c| - 1] == c[0]
  }

  ghost predicate Acyclic(g: Graph) {
    forall c :: !Cycle(g, c)
  }

  /** `n` is on a cycle or depends, through a chain, on a crate that is. */
  ghost predicate DependsOnCycle(g: Graph, n: string) {
    exists c, i, j :: ChainFrom(g, n, c) && 0 <= i < j < |c| && c[i] == c[j]
  }

  /** The longest chain starting at `n` has exactly `k` edges. */
  ghost predicate LongestChain(g: Graph, n: string, k: nat) {
    && (exists c :: ChainFrom(g, n, c) && |c| == k + 1)
    && (forall c :: ChainFrom(g, n, c) ==> |c| <= k + 1)
  }

  lemma ChainTail(g: Graph, c: seq<string>)
    requires Chain(g, c) && |c| >= 2
    ensures ChainFrom(g, c[1], c[1..])
  {
    var t := c[1..];
    forall i | 0 <= i < |t| - 1 ensures t[i + 1] in Deps(g, t[i]) {
      assert c[i + 1 + 1] in Deps(g, c[i + 1]);
    }
  }

  lemma ChainCons(g: Graph, n: string, c: seq<string>)
    requires Chain(g, c) && n in g.names && c[0] in Deps(g, n)
    ensures ChainFrom(g, n, [n] + c)
  {
    var t := [n] + c;
    forall i | 0 <= i < |t| - 1 ensures t[i + 1] in Deps(g, t[i]) {
      if i > 0 { assert c[i - 1 + 1] in Deps(g, c[i - 1]); }
    }
  }

  lemma ChainSlice(g: Graph, c: seq<string>, i: nat, j: nat)
    requires Chain(g, c) && i <= j < |c|
    ensures Chain(g, c[i..j + 1])
  {
    var t := c[i..j + 1];
    forall k | 0 <= k < |t| - 1 ensures t[k + 1] in Deps(g, t[k]) {
      assert c[i + k + 1] in Deps(g, c[i + k]);
    }
  }

  // ---------------------------------------------------------------- layers

  /** What has been emitted after `k` batches: the crates whose dependencies
      had all been emitted one batch earlier. */
  function Done(g: Graph, k: nat): set<string> {
    if k == 0 then {}
    else set n | n in g.names && Deps(g, n) <= Done(g, k - 1)
  }

  function Batch(g: Graph, k: nat): set<string> {
    Done(g, k + 1) - Done(g, k)
  }

  /** Everything that some batch emits. */
  function Settled(g: Graph): set<string> {
    Done(g, |g.names|)
  }

  /** Everything that no batch ever emits. */
  function Stuck(g: Graph): set<string> {
    g.names - Settled(g)
  }

  lemma {:induction false} DoneGrows(g: Graph, k: nat)
    ensures Done(g, k) <= Done(g, k + 1) <= g.names
  {
    if k > 0 { DoneGrows(g, k - 1); }
  }

  lemma {:induction false} DoneMonotone(g: Graph, j: nat, k: nat)
    requires j <= k
    ensures Done(g, j) <= Done(g, k) <= g.names
    decreases k
  {
    DoneGrows(g, k);
    if j < k {
      DoneMonotone(g, j, k - 1);
      DoneGrows(g, k - 1);
    } else if k > 0 {
      DoneGrows(g, k - 1);
    }
  }

  lemma SameStep(g: Graph, j: nat, k: nat)
    requires Done(g, j) == Done(g, k)
    ensures Done(g, j + 1) == Done(g, k + 1)
  {
  }

  /** Once a batch is empty nothing is ever emitted again. */
  lemma {:induction false} DoneFixed(g: Graph, j: nat, k: nat)
    requires j <= k && Done(g, j + 1) == Done(g, j)
    ensures Done(g, k) == Done(g, j)
    decreases k
  {
    if j < k {
      DoneFixed(g, j, k - 1);
      SameStep(g, j, k - 1);
      hide Done;
    }
  }

  /** Every batch that does not come up empty emits at least one more crate. */
  lemma {:induction false} DoneCounts(g: Graph, k: nat)
    ensures |Done(g, k)| >= k || Done(g, k + 1) == Done(g, k)
  {
    if k > 0 {
      DoneCounts(g, k - 1);
      DoneGrows(g, k - 1);
      if Done(g, k) == Done(g, k - 1) {
        DoneFixed(g, k - 1, k + 1);
      } else {
        SubsetSize(Done(g, k - 1), Done(g, k));
      }
    }
  }

  lemma {:induction false} SubsetSize<T>(a: set<T>, b: set<T>)
    requires a <= b
    ensures |a| <= |b|
    ensures a != b ==> |a| < |b|
  {
    assert b == a + (b - a);
    assert |b| == |a| + |b - a|;
    if a != b { assert b - a != {}; }
  }

  /** After |names| batches the process has stopped for good. */
  lemma SettledFixed(g: Graph, k: nat)
    requires k >= |g.names|
    ensures Done(g, k) == Settled(g)
  {
    var n := |g.names|;
    DoneCounts(g, n);
    DoneGrows(g, n);
    if Done(g, n + 1) != Done(g, n) {
      SubsetSize(Done(g, n), Done(g, n + 1));
      SubsetSize(Done(g, n + 1), g.names);
    }
    DoneFixed(g, n, k);
  }

  lemma StoppedIsSettled(g: Graph, k: nat)
    requires Batch(g, k) == {}
    ensures Done(g, k) == Settled(g)
  {
    DoneGrows(g, k);
    if k >= |g.names| {
      SettledFixed(g, k);
    } else {
      DoneFixed(g, k, |g.names|);
    }
  }

  lemma DoneWithinSettled(g: Graph, k: nat)
    ensures Done(g, k) <= Settled(g)
  {
    if k >= |g.names| { SettledFixed(g, k); } else { DoneMonotone(g, k, |g.names|); }
  }

  // ------------------------------------------ layers are longest chain lengths

  lemma {:induction false} DoneBoundsChains(g: Graph, k: nat, n: string, c: seq<string>)
    requires n in Done(g, k) && ChainFrom(g, n, c)
    ensures |c| <= k
  {
    if |c| >= 2 {
      ChainTail(g, c);
      assert c[0 + 1] in Deps(g, c[0]);
      DoneBoundsChains(g, k - 1, c[1], c[1..]);
    }
  }

  lemma {:induction false} NotDoneHasChain(g: Graph, k: nat, n: string) returns (c: seq<string>)
    requires n in g.names && n !in Done(g, k)
    ensures ChainFrom(g, n, c) && |c| == k + 1
  {
    if k == 0 {
      c := [n];
    } else {
      var d :| d in Deps(g, n) && d !in Done(g, k - 1);
      var t := NotDoneHasChain(g, k - 1, d);
      ChainCons(g, n, t);
      c := [n] + t;
    }
  }

  /** A crate is emitted within the first `k` batches exactly when every
      dependency chain starting at it has fewer than `k` edges. */
  lemma DoneIffChainsShort(g: Graph, k: nat, n: string)
    requires n in g.names
    ensures n in Done(g, k) <==> forall c :: ChainFrom(g, n, c) ==> |c| <= k
  {
    if n in Done(g, k) {
      forall c | ChainFrom(g, n, c) ensures |c| <= k {
        DoneBoundsChains(g, k, n, c);
      }
    } else {
      var c := NotDoneHasChain(g, k, n);
    }
  }

  /** A crate is in batch `k` exactly when its longest chain has `k` edges. */
  lemma BatchIsLongestChain(g: Graph, k: nat, n: string)
    requires n in g.names
    ensures n in Batch(g, k) <==> LongestChain(g, n, k)
  {
    DoneIffChainsShort(g, k, n);
    DoneIffChainsShort(g, k + 1, n);
    if n in Batch(g, k) {
      var c := NotDoneHasChain(g, k, n);
      assert ChainFrom(g, n, c) && |c| == k + 1;
    }
  }

  // ------------------------------------------------------- stuck means cyclic

  lemma {:induction false} CycleNeverDone(g: Graph, k: nat, c: seq<string>)
    requires Cycle(g, c)
    ensures c[0] !in Done(g, k)
  {
    if c[0] in Done(g, k) {
      DoneDescends(g, k, c, |c| - 1);
      CycleNeverDone(g, k - (|c| - 1), c);
    }
  }

  /** Walking `i` edges down a chain goes back at least `i` batches. */
  lemma {:induction false} DoneDescends(g: Graph, k: nat, c: seq<string>, i: nat)
    requires Chain(g, c) && i < |c| && c[0] in Done(g, k)
    ensures i < k && c[i] in Done(g, k - i)
  {
    if i > 0 {
      DoneDescends(g, k, c, i - 1);
      assert c[i - 1 + 1] in Deps(g, c[i - 1]);
    }
  }

  /** More entries than names: some name occurs twice. */
  lemma {:induction false} Pigeonhole(c: seq<string>, names: set<string>) returns (i: nat, j: nat)
    requires forall k :: 0 <= k < |c| ==> c[k] in names
    requires |c| > |names|
    ensures i < j < |c| && c[i] == c[j]
    decreases |c|
  {
    var x := c[0];
    if k :| 1 <= k < |c| && c[k] == x {
      return 0, k;
    }
    var i', j' := Pigeonhole(c[1..], names - {x});
    return i' + 1, j' + 1;
  }

  /** A crate is never emitted exactly when it depends on a cycle. */
  lemma StuckIffDependsOnCycle(g: Graph, n: string)
    requires n in g.names
    ensures n in Stuck(g) <==> DependsOnCycle(g, n)
  {
    if n in Stuck(g) {
      var c := NotDoneHasChain(g, |g.names|, n);
      var i, j := Pigeonhole(c, g.names);
      assert ChainFrom(g, n, c) && 0 <= i < j < |c| && c[i] == c[j];
    }
    if DependsOnCycle(g, n) && n in Settled(g) {
      var c, i, j :| ChainFrom(g, n, c) && 0 <= i < j < |c| && c[i] == c[j];
      DoneDescends(g, |g.names|, c, i);
      ChainSlice(g, c, i, j);
      CycleNeverDone(g, |g.names| - i, c[i..j + 1]);
    }
  }

  lemma StuckEmptyIffAcyclic(g: Graph)
    ensures Stuck(g) == {} <==> Acyclic(g)
  {
    if Stuck(g) != {} {
      var n :| n in Stuck(g);
      StuckIffDependsOnCycle(g, n);
      var c, i, j :| ChainFrom(g, n, c) && 0 <= i < j < |c| && c[i] == c[j];
      ChainSlice(g, c, i, j);
      assert Cycle(g, c[i..j + 1]);
    }
    if c :| Cycle(g, c) {
      CycleNeverDone(g, |g.names|, c);
      assert c[0] in Stuck(g);
    }
  }

  // ---------------------------------------------------------- the batched order

  /** The batches from number `k` on, each sorted, one after the other. */
  ghost function OrderFrom(g: Graph, k: nat): seq<string>
    decreases |g.names| - |Done(g, k)|
  {
    DoneGrows(g, k);
    SubsetSize(Done(g, k), Done(g, k + 1));
    SubsetSize(Done(g, k + 1), g.names);
    if Batch(g, k) == {} then []
    else SortedNames(Batch(g, k)) + OrderFrom(g, k + 1)
  }

  ghost function Order(g: Graph): seq<string> {
    OrderFrom(g, 0)
  }

  /** `a` belongs strictly before `b`: its longest chain is shorter, or the two
      are equally long and its name is smaller. */
  ghost predicate Precedes(g: Graph, a: string, b: string) {
    exists j: nat, k: nat ::
      && LongestChain(g, a, j) && LongestChain(g, b, k)
      && (j < k || (j == k && Less(a, b)))
  }

  lemma {:induction false} OrderFromElements(g: Graph, k: nat)
    ensures Elements(OrderFrom(g, k)) == Settled(g) - Done(g, k)
    decreases |g.names| - |Done(g, k)|
  {
    hide Done, Settled;
    DoneGrows(g, k);
    SubsetSize(Done(g, k), Done(g, k + 1));
    SubsetSize(Done(g, k + 1), g.names);
    if Batch(g, k) == {} {
      StoppedIsSettled(g, k);
    } else {
      OrderFromElements(g, k + 1);
      DoneWithinSettled(g, k + 1);
      hide Elements;
      ElementsConcat(SortedNames(Batch(g, k)), OrderFrom(g, k + 1));
      Layered(Done(g, k), Done(g, k + 1), Settled(g));
    }
  }

  lemma Layered<T>(a: set<T>, b: set<T>, c: set<T>)
    requires a <= b <= c
    ensures (b - a) + (c - b) == c - a
  {
  }

  lemma ElementsConcat<T>(s: seq<T>, t: seq<T>)
    ensures Elements(s + t) == Elements(s) + Elements(t)
  {
    forall x ensures x in Elements(s + t) <==> x in Elements(s) + Elements(t) {
    }
  }

  lemma {:induction false} OrderFromSorted(g: Graph, k: nat)
    ensures forall i, j :: 0 <= i < j < |OrderFrom(g, k)| ==>
              Precedes(g, OrderFrom(g, k)[i], OrderFrom(g, k)[j])
    decreases |g.names| - |Done(g, k)|
  {
    DoneGrows(g, k);
    SubsetSize(Done(g, k), Done(g, k + 1));
    SubsetSize(Done(g, k + 1), g.names);
    if Batch(g, k) != {} {
      OrderFromSorted(g, k + 1);
      OrderFromElements(g, k + 1);
      var s, t := SortedNames(Batch(g, k)), OrderFrom(g, k + 1);
      forall i, j | 0 <= i < j < |s| ensures Precedes(g, s[i], s[j]) {
        MemberAt(s, i);
        MemberAt(s, j);
        SameBatchPrecedes(g, k, s[i], s[j]);
      }
      forall i, j | 0 <= i < |s| && 0 <= j < |t| ensures Precedes(g, s[i], t[j]) {
        MemberAt(s, i);
        MemberAt(t, j);
        LaterBatchPrecedes(g, k, s[i], t[j]);
      }
      PrecedesConcat(g, s, t);
    }
  }

  lemma MemberAt<T>(s: seq<T>, i: nat)
    requires i < |s|
    ensures s[i] in Elements(s)
  {
  }

  lemma PrecedesConcat(g: Graph, s: seq<string>, t: seq<string>)
    requires forall i, j :: 0 <= i < j < |s| ==> Precedes(g, s[i], s[j])
    requires forall i, j :: 0 <= i < j < |t| ==> Precedes(g, t[i], t[j])
    requires forall i, j :: 0 <= i < |s| && 0 <= j < |t| ==> Precedes(g, s[i], t[j])
    ensures forall i, j :: 0 <= i < j < |s + t| ==> Precedes(g, (s + t)[i], (s + t)[j])
  {
  }

  lemma SameBatchPrecedes(g: Graph, k: nat, a: string, b: string)
    requires a in Batch(g, k) && b in Batch(g, k) && Less(a, b)
    ensures Precedes(g, a, b)
  {
    DoneGrows(g, k + 1);
    BatchIsLongestChain(g, k, a);
    BatchIsLongestChain(g, k, b);
  }

  lemma LaterBatchPrecedes(g: Graph, k: nat, a: string, b: string)
    requires a in Batch(g, k) && b in Settled(g) - Done(g, k + 1)
    ensures Precedes(g, a, b)
  {
    DoneGrows(g, k + 1);
    DoneGrows(g, |g.names|);
    var m := BatchOf(g, b, k + 1, |g.names|);
    BatchIsLongestChain(g, k, a);
    BatchIsLongestChain(g, m, b);
  }

  /** A crate emitted between batch `lo` and batch `hi` has a batch of its own. */
  lemma {:induction false} BatchOf(g: Graph, n: string, lo: nat, hi: nat) returns (m: nat)
    requires n in Done(g, hi) && n !in Done(g, lo)
    ensures lo <= m < hi && n in Batch(g, m)
    decreases hi
  {
    if hi <= lo {
      DoneMonotone(g, hi, lo);
    } else if n in Done(g, hi - 1) {
      m := BatchOf(g, n, lo, hi - 1);
    } else {
      m := hi - 1;
    }
  }

  lemma LongestChainUnique(g: Graph, n: string, j: nat, k: nat)
    requires LongestChain(g, n, j) && LongestChain(g, n, k)
    ensures j == k
  {
    var c :| ChainFrom(g, n, c) && |c| == j + 1;
    var d :| ChainFrom(g, n, d) && |d| == k + 1;
  }

  /** `Precedes` is a strict order, so the order is pinned down completely. */
  lemma PrecedesAsymmetric(g: Graph, a: string, b: string)
    requires Precedes(g, a, b)
    ensures !Precedes(g, b, a) && a != b
  {
    var j: nat, k: nat :| LongestChain(g, a, j) && LongestChain(g, b, k) && (j < k || (j == k && Less(a, b)));
    LessTotal(a, b);
    if j': nat, k': nat :| LongestChain(g, b, j') && LongestChain(g, a, k') && (j' < k' || (j' == k' && Less(b, a))) {
      LongestChainUnique(g, a, j, k');
      LongestChainUnique(g, b, k, j');
    }
    if a == b {
      LongestChainUnique(g, a, j, k);
    }
  }

  /** A dependency has a strictly shorter longest chain. */
  lemma DependencyPrecedes(g: Graph, n: string, d: string)
    requires n in Settled(g) && d in Deps(g, n)
    ensures d in Settled(g) && Precedes(g, d, n)
  {
    var k := BatchOf(g, n, 0, |g.names|);
    DoneWithinSettled(g, k);
    assert d in Done(g, k);
    var m := BatchOf(g, d, 0, k);
    BatchIsLongestChain(g, k, n);
    BatchIsLongestChain(g, m, d);
  }

  /** What the order is, without saying how it is computed: each crate that
      depends on no cycle, once, ordered by longest chain and then by name. */
  lemma OrderCharacterised(g: Graph)
    ensures forall n :: n in Order(g) <==> n in g.names && !DependsOnCycle(g, n)
    ensures NoDuplicates(Order(g))
    ensures forall i, j :: 0 <= i < j < |Order(g)| ==> Precedes(g, Order(g)[i], Order(g)[j])
  {
    OrderFromElements(g, 0);
    OrderFromSorted(g, 0);
    DoneMonotone(g, |g.names|, |g.names|);
    var r := Order(g);
    forall n ensures n in r <==> n in g.names && !DependsOnCycle(g, n) {
      assert n in r <==> n in Elements(r);
      if n in g.names { StuckIffDependsOnCycle(g, n); }
    }
    forall i, j | 0 <= i < j < |r| ensures r[i] != r[j] {
      PrecedesAsymmetric(g, r[i], r[j]);
    }
  }

  /** Every emitted crate comes strictly after all its in-graph dependencies,
      which are themselves emitted. */
  lemma DependenciesFirst(g: Graph, j: nat, d: string)
    requires j < |Order(g)| && d in Deps(g, Order(g)[j])
    ensures exists i :: 0 <= i < j && Order(g)[i] == d
  {
    var r := Order(g);
    OrderCharacterised(g);
    OrderFromElements(g, 0);
    assert r[j] in Elements(r);
    DependencyPrecedes(g, r[j], d);
    assert d in Elements(r);
    var i :| 0 <= i < |r| && r[i] == d;
    if i > j {
      PrecedesAsymmetric(g, r[j], r[i]);
    } else if i == j {
      PrecedesAsymmetric(g, d, r[j]);
    }
  }

  /** The order followed by the sorted stuck crates lists every name once. */
  lemma OrderAndStuckPermute(g: Graph)
    ensures NoDuplicates(Order(g) + SortedNames(Stuck(g)))
    ensures Elements(Order(g) + SortedNames(Stuck(g))) == g.names
  {
    assert Done(g, 0) == {};
    hide Done, OrderFrom, Precedes, DependsOnCycle, NoDuplicates, Elements;
    OrderCharacterised(g);
    OrderFromElements(g, 0);
    DoneMonotone(g, |g.names|, |g.names|);
    ElementsConcat(Order(g), SortedNames(Stuck(g)));
    AscendingNoDuplicates(SortedNames(Stuck(g)));
    NoDuplicatesConcat(Order(g), SortedNames(Stuck(g)));
  }

  lemma AscendingNoDuplicates(s: seq<string>)
    requires Ascending(s)
    ensures NoDuplicates(s)
  {
    forall i, j | 0 <= i < j < |s| ensures s[i] != s[j] {
      LessTotal(s[i], s[j]);
    }
  }

  lemma NoDuplicatesConcat<T>(s: seq<T>, t: seq<T>)
    requires NoDuplicates(s) && NoDuplicates(t) && Elements(s) !! Elements(t)
    ensures NoDuplicates(s + t)
  {
    forall i, j | 0 <= i < j < |s + t| ensures (s + t)[i] != (s + t)[j] {
      if i < |s| <= j {
        assert s[i] in Elements(s) && t[j - |s|] in Elements(t);
      }
    }
  }
}
