/** `scripts/verify-publish-order.py`: the checks of an external `CRATES=(...)`
    list against the metadata, independent of how the list was produced. */
module VerifyPublishOrder {
  import opened Prelude
  import opened Names
  import opened DependencyGraph
  import opened Workspace
  import opened GenPublishOrder
  import opened CratesArray

  /** The verifier's rule is narrower than the generator's: only unset. */
  predicate VerifyPublishable(p: Package) {
    p.publish == None
  }

  ghost function Publishable(m: Metadata): set<string> {
    PublishableOf(m, VerifyPublishable)
  }

  /** `{name: i for i, name in enumerate(entries)}`: the last position wins. */
  function Positions(entries: seq<string>): (pos: map<string, nat>)
    ensures pos.Keys == Elements(entries)
    ensures forall n :: n in pos ==>
                          && pos[n] < |entries| && entries[pos[n]] == n
                          && forall j :: pos[n] < j < |entries| ==> entries[j] != n
  {
    if entries == [] then map[]
    else
      var k := |entries| - 1;
      ElementsAppend(entries[..k], entries[k]);
      assert entries == entries[..k] + [entries[k]];
      Positions(entries[..k])[entries[k] := k]
  }

  /** A crate listed at `namePos` although it needs `dep`, listed at `depPos`. */
  datatype Violation = Violation(name: string, dep: string, namePos: nat, depPos: nat)

  ghost predicate IsViolation(m: Metadata, entries: seq<string>, v: Violation) {
    var pos := Positions(entries);
    && v.name in pos && v.name in Publishable(m)
    && DependsOn(m, v.name, v.dep)
    && v.dep in pos && v.dep in Publishable(m)
    && v.namePos == pos[v.name] && v.depPos == pos[v.dep] && v.depPos > v.namePos
  }

  /** The inner violation loop, over the dependencies of one crate. */
  method ViolationsOf(pos: map<string, nat>, pub: set<string>, name: string, depSet: set<string>,
                      found0: set<Violation>)
    returns (found: set<Violation>)
    requires name in pos
    ensures forall v :: v in found <==>
                          v in found0 || (&& v.name == name && v.dep in depSet && v.dep in pos && v.dep in pub
                                          && v.namePos == pos[name] && v.depPos == pos[v.dep] && v.depPos > v.namePos)
  {
    found := found0;
    var left := depSet;
    while left != {}
      invariant left <= depSet
      invariant forall v :: v in found <==>
                              v in found0
                              || (&& v.name == name && v.dep in depSet - left && v.dep in pos && v.dep in pub
                                              && v.namePos == pos[name] && v.depPos == pos[v.dep]
                                              && v.depPos > v.namePos)
      decreases left
    {
      var d :| d in left;
      if d in pos && d in pub && pos[d] > pos[name] {
        found := found + {Violation(name, d, pos[name], pos[d])};
      }
      left := left - {d};
    }
  }

  method CollectViolations(pos: map<string, nat>, pub: set<string>, deps: map<string, set<string>>)
    returns (found: set<Violation>)
    ensures forall v :: v in found <==>
                          && v.name in pos && v.name in pub
                          && v.dep in Get(deps, v.name) && v.dep in pos && v.dep in pub
                          && v.namePos == pos[v.name] && v.depPos == pos[v.dep] && v.depPos > v.namePos
  {
    found := {};
    var todo := deps.Keys;
    while todo != {}
      invariant todo <= deps.Keys
      invariant forall v :: v in found <==>
                              && v.name in pos && v.name in pub && v.name !in todo
                              && v.dep in Get(deps, v.name) && v.dep in pos && v.dep in pub
                              && v.namePos == pos[v.name] && v.depPos == pos[v.dep] && v.depPos > v.namePos
      decreases todo
    {
      var name :| name in todo;
      todo := todo - {name};
      if name !in pos || name !in pub {
        continue;
      }
      found := ViolationsOf(pos, pub, name, deps[name], found);
    }
  }

  datatype Report =
    | CycleDetected(members: seq<string>)
    | Checked(missing: seq<string>, stale: seq<string>, violations: set<Violation>)

  function ExitCode(r: Report): int {
    match r
    case CycleDetected(_) => 2
    case Checked(missing, stale, violations) =>
      if missing != [] || stale != [] || violations != {} then 1 else 0
  }

  /** `main` on the entries read from the external script. */
  method Check(m: Metadata, entries: seq<string>) returns (r: Report)
    requires UniqueNames(m)
    ensures r.Checked? <==> Acyclic(GraphOf(m))
    ensures r.CycleDetected? ==> r.members == SortedNames(Stuck(GraphOf(m)))
    ensures r.Checked? ==>
              && r.missing == SortedNames(Publishable(m) - Elements(entries))
              && r.stale == SortedNames(Elements(entries) - WorkspaceNames(m))
              && forall v :: v in r.violations <==> IsViolation(m, entries, v)
  {
    hide Stuck, Order, Acyclic, NodeDependsOn, SortedNames, UniqueNames, WorkspaceNames;
    var wsNames, deps, publishable := BuildGraph(m, VerifyPublishable);
    var order, cycleMembers := TopoOrder(wsNames, deps);
    SameEdgesSameOrder(Graph(wsNames, deps), GraphOf(m), 0);
    StuckEmptyIffAcyclic(GraphOf(m));
    ElementsEmpty(cycleMembers);
    if cycleMembers != [] {
      return CycleDetected(cycleMembers);
    }
    var publishableNames := set n | n in publishable && publishable[n];
    var scriptSet := Elements(entries);
    var missing := SortSet(publishableNames - scriptSet);
    var staleSet := set n | n in scriptSet && n !in wsNames && n !in publishableNames;
    assert staleSet == scriptSet - WorkspaceNames(m);
    var stale := SortSet(staleSet);
    var violations := CollectViolations(Positions(entries), publishableNames, deps);
    forall n, d ensures d in Get(deps, n) <==> DependsOn(m, n, d) {
      GraphOfEdges(m, n, d);
    }
    r := Checked(missing, stale, violations);
  }

  // ----------------------------------------------- what a clean report means

  ghost predicate Clean(m: Metadata, entries: seq<string>) {
    && Publishable(m) <= Elements(entries) <= WorkspaceNames(m)
    && forall v :: !IsViolation(m, entries, v)
  }

  /** Some occurrence of `n` has every occurrence of `d` before it, and there is one. */
  ghost predicate ListedAfter(entries: seq<string>, n: string, d: string) {
    && d in entries
    && exists i :: 0 <= i < |entries| && entries[i] == n && forall j :: 0 <= j < |entries| && entries[j] == d ==> j < i
  }

  ghost predicate ListedAndOrdered(m: Metadata, entries: seq<string>) {
    && Publishable(m) <= Elements(entries) <= WorkspaceNames(m)
    && forall n, d :: n in Publishable(m) && d in Publishable(m) && DependsOn(m, n, d) ==> ListedAfter(entries, n, d)
  }

  lemma ExitZeroIffClean(m: Metadata, entries: seq<string>, r: Report)
    requires r.Checked?
    requires r.missing == SortedNames(Publishable(m) - Elements(entries))
    requires r.stale == SortedNames(Elements(entries) - WorkspaceNames(m))
    requires forall v :: v in r.violations <==> IsViolation(m, entries, v)
    ensures ExitCode(r) == 0 <==> Clean(m, entries)
  {
    ElementsEmpty(r.missing);
    ElementsEmpty(r.stale);
    assert r.violations == {} <==> forall v :: !IsViolation(m, entries, v) by {
      if r.violations != {} {
        var v :| v in r.violations;
        assert IsViolation(m, entries, v);
      }
    }
    DifferenceEmpty(Publishable(m), Elements(entries));
    DifferenceEmpty(Elements(entries), WorkspaceNames(m));
  }

  /** What the exit code says about workspace and list, for the report of `Check`. */
  lemma ExitMeaning(m: Metadata, entries: seq<string>, r: Report)
    requires r.Checked? <==> Acyclic(GraphOf(m))
    requires r.Checked? ==>
               && r.missing == SortedNames(Publishable(m) - Elements(entries))
               && r.stale == SortedNames(Elements(entries) - WorkspaceNames(m))
               && forall v :: v in r.violations <==> IsViolation(m, entries, v)
    ensures ExitCode(r) == if !Acyclic(GraphOf(m)) then 2 else if Clean(m, entries) then 0 else 1
  {
    if r.Checked? { ExitZeroIffClean(m, entries, r); }
    hide Acyclic, Clean, GraphOf;
  }

  /** What the two scripts call publishable: the verifier members with `publish` unset,
      the generator also those with a list of registries that is not empty. */
  lemma PublishableNames(m: Metadata, n: string)
    requires DistinctIds(m)
    ensures n in Publishable(m) <==> exists p :: Member(m, p) && p.name == n && p.publish.None?
    ensures n in PublishableOf(m, GenPublishable) <==>
            exists p :: Member(m, p) && p.name == n && (p.publish.None? || |p.publish.value| > 0)
  {
    PublishableMeaning(m, VerifyPublishable, n);
    PublishableMeaning(m, GenPublishable, n);
    hide PublishableOf, Member;
  }

  /** For any list, duplicates included: the verifier is clean exactly when every
      publishable crate is listed, nothing foreign is, and each crate has an
      occurrence that all occurrences of its dependencies precede. */
  lemma CleanIffListedAndOrdered(m: Metadata, entries: seq<string>)
    ensures Clean(m, entries) <==> ListedAndOrdered(m, entries)
  {
    hide DependsOn, PublishableOf, IsViolation, ListedAfter, WorkspaceNames;
    if Clean(m, entries) {
      forall n, d | n in Publishable(m) && d in Publishable(m) && DependsOn(m, n, d)
        ensures ListedAfter(entries, n, d)
      {
        CleanPair(m, entries, n, d);
      }
    }
    if ListedAndOrdered(m, entries) {
      forall v ensures !IsViolation(m, entries, v) { OrderedPair(m, entries, v); }
    }
  }

  lemma CleanPair(m: Metadata, entries: seq<string>, n: string, d: string)
    requires n in entries && d in entries && n in Publishable(m) && d in Publishable(m) && DependsOn(m, n, d)
    requires forall v :: !IsViolation(m, entries, v)
    ensures ListedAfter(entries, n, d)
  {
    hide DependsOn, PublishableOf;
    GraphOfEdges(m, n, d);
    var pos := Positions(entries);
    assert n in Elements(entries) && d in Elements(entries);
    assert !IsViolation(m, entries, Violation(n, d, pos[n], pos[d]));
    assert entries[pos[n]] == n;
  }

  lemma OrderedPair(m: Metadata, entries: seq<string>, v: Violation)
    requires v.name in Publishable(m) && v.dep in Publishable(m) && DependsOn(m, v.name, v.dep) ==>
               ListedAfter(entries, v.name, v.dep)
    ensures !IsViolation(m, entries, v)
  {
    hide DependsOn, PublishableOf;
    if v.name in Publishable(m) && v.dep in Publishable(m) && DependsOn(m, v.name, v.dep) {
      var pos := Positions(entries);
      var i :| 0 <= i < |entries| && entries[i] == v.name
               && forall j :: 0 <= j < |entries| && entries[j] == v.dep ==> j < i;
      assert v.name in Elements(entries) && v.dep in Elements(entries);
      assert entries[pos[v.dep]] == v.dep;
      assert pos[v.dep] < i <= pos[v.name];
    }
  }

  /** Every listed publishable crate is preceded by all its publishable dependencies. */
  ghost predicate SafeToPublish(m: Metadata, entries: seq<string>) {
    && Publishable(m) <= Elements(entries) <= WorkspaceNames(m)
    && forall i, d | 0 <= i < |entries| && entries[i] in Publishable(m) && d in Publishable(m)
                     && DependsOn(m, entries[i], d) :: d in entries[..i]
  }

  // ------------------------------------- when a clean report can be trusted

  /** A crate named by its id, with `publish = false` if it is among the hidden ones. */
  function CrateNamed(name: string, hidden: set<string>): Package {
    Package(name, name, if name in hidden then Some([]) else None)
  }

  /** The workspace that lists the crates of `entries` and has one edge only:
      `n` needs `d`. */
  function SingleEdge(entries: seq<string>, hidden: set<string>, n: string, d: string): Metadata {
    Metadata(seq(|entries|, i requires 0 <= i < |entries| => CrateNamed(entries[i], hidden)),
             Elements(entries), [Node(n, [Dep(d, [None])])])
  }

  lemma {:induction false} NamedByIds(names: seq<string>, hidden: set<string>, packages: seq<Package>)
    requires |packages| == |names| && forall i :: 0 <= i < |names| ==> packages[i] == CrateNamed(names[i], hidden)
    ensures IndexPackages(packages) == map x | x in Elements(names) :: CrateNamed(x, hidden)
  {
    if names == [] {
    } else {
      var k := |names| - 1;
      NamedByIds(names[..k], hidden, packages[..k]);
      assert names == names[..k] + [names[k]];
      ElementsAppend(names[..k], names[k]);
    }
  }

  lemma SingleEdgeNames(entries: seq<string>, hidden: set<string>, n: string, d: string)
    ensures var m := SingleEdge(entries, hidden, n, d);
            && IndexPackages(m.packages) == (map x | x in Elements(entries) :: CrateNamed(x, hidden))
            && MemberIds(m) == WorkspaceNames(m) == Elements(entries) && UniqueNames(m)
            && Publishable(m) == PublishableOf(m, GenPublishable) == Elements(entries) - hidden
  {
    var m := SingleEdge(entries, hidden, n, d);
    NamedByIds(entries, hidden, m.packages);
    hide IndexPackages;
    var pkgs := IndexPackages(m.packages);
    forall x | x in Elements(entries)
      ensures pkgs[x].name == x && (VerifyPublishable(pkgs[x]) <==> x !in hidden)
      ensures GenPublishable(pkgs[x]) <==> x !in hidden
    {
    }
  }

  lemma SingleEdgeNodes(entries: seq<string>, hidden: set<string>, n: string, d: string)
    ensures IndexNodes(SingleEdge(entries, hidden, n, d).nodes) == map[n := Node(n, [Dep(d, [None])])]
  {
    var nodes := SingleEdge(entries, hidden, n, d).nodes;
    assert nodes[..0] == [];
  }

  lemma SingleEdgeDepends(entries: seq<string>, hidden: set<string>, n: string, d: string, a: string, b: string)
    requires n in entries && d in entries && n != d
    ensures DependsOn(SingleEdge(entries, hidden, n, d), a, b) <==> a == n && b == d
  {
    var m := SingleEdge(entries, hidden, n, d);
    SingleEdgeNames(entries, hidden, n, d);
    SingleEdgeNodes(entries, hidden, n, d);
    var e := Dep(d, [None]);
    assert PublishEdge(e) by { assert None in e.kinds; }
    hide IndexPackages, IndexNodes, SingleEdge, PublishEdge;
    assert NodeDependsOn(m, n, d) by { assert [e][0] == e; }
    assert DependsOn(m, n, d);
    if DependsOn(m, a, b) {
      var id :| id in MemberIds(m) && IndexPackages(m.packages)[id].name == a && NodeDependsOn(m, id, b);
    }
  }

  lemma SingleEdgeAcyclic(entries: seq<string>, hidden: set<string>, n: string, d: string)
    requires n in entries && d in entries && n != d
    ensures Acyclic(GraphOf(SingleEdge(entries, hidden, n, d)))
  {
    hide GraphOf, SingleEdge;
    var m := SingleEdge(entries, hidden, n, d);
    var g := GraphOf(m);
    forall c ensures !Cycle(g, c) {
      if Cycle(g, c) {
        var k := |c| - 2;
        assert c[0 + 1] in Deps(g, c[0]) && c[k + 1] in Deps(g, c[k]);
        GraphOfEdges(m, c[0], c[1]);
        GraphOfEdges(m, c[k], c[k + 1]);
        SingleEdgeDepends(entries, hidden, n, d, c[0], c[1]);
        SingleEdgeDepends(entries, hidden, n, d, c[k], c[k + 1]);
      }
    }
  }

  /** With nothing hidden the list is clean when it puts `n` after `d` somewhere,
      and safe when it puts `n` after `d` everywhere. */
  lemma SingleEdgeReport(entries: seq<string>, n: string, d: string)
    requires n in entries && d in entries && n != d
    ensures Clean(SingleEdge(entries, {}, n, d), entries) <==> ListedAfter(entries, n, d)
    ensures SafeToPublish(SingleEdge(entries, {}, n, d), entries) <==> AlwaysAfter(entries, n, d)
  {
    hide DependsOn, SingleEdge, ListedAfter, Clean, PublishableOf, WorkspaceNames, UniqueNames;
    var m := SingleEdge(entries, {}, n, d);
    SingleEdgeNames(entries, {}, n, d);
    CleanIffListedAndOrdered(m, entries);
    forall a, b ensures DependsOn(m, a, b) <==> a == n && b == d {
      SingleEdgeDepends(entries, {}, n, d, a, b);
    }
  }

  /** Every occurrence of `n` has an occurrence of `d` before it. */
  ghost predicate AlwaysAfter(entries: seq<string>, n: string, d: string) {
    forall i :: 0 <= i < |entries| && entries[i] == n ==> d in entries[..i]
  }

  /** Occurrence `i` of a crate comes before every `d`, a later one after every `d`:
      this is what looking only at last positions misses. */
  ghost predicate HidesEarly(entries: seq<string>, i: nat, d: string) {
    i < |entries| && d != entries[i] && d !in entries[..i] && ListedAfter(entries, entries[i], d)
  }

  /** The workspace is one that Cargo accepts and that can be published at all. */
  ghost predicate Sound(m: Metadata) {
    UniqueNames(m) && Acyclic(GraphOf(m))
  }

  /** Exactly which lists a clean report can be trusted on, whatever the workspace:
      those without a hidden early occurrence. */
  lemma CleanTrustedIff(entries: seq<string>)
    ensures (forall m :: Sound(m) && Clean(m, entries) ==> SafeToPublish(m, entries))
            <==> forall i: nat, d :: !HidesEarly(entries, i, d)
  {
    if i: nat, d :| HidesEarly(entries, i, d) {
      var n := entries[i];
      SingleEdgeNames(entries, {}, n, d);
      SingleEdgeAcyclic(entries, {}, n, d);
      SingleEdgeReport(entries, n, d);
      assert Sound(SingleEdge(entries, {}, n, d));
    } else {
      forall m | Clean(m, entries) ensures SafeToPublish(m, entries) {
        NothingHiddenIsSafe(m, entries);
      }
    }
  }

  lemma NothingHiddenIsSafe(m: Metadata, entries: seq<string>)
    requires Clean(m, entries) && forall i: nat, d :: !HidesEarly(entries, i, d)
    ensures SafeToPublish(m, entries)
  {
    CleanIffListedAndOrdered(m, entries);
    hide DependsOn, PublishableOf, ListedAfter, WorkspaceNames, Clean;
    forall i, d | 0 <= i < |entries| && entries[i] in Publishable(m) && d in Publishable(m)
                  && DependsOn(m, entries[i], d)
      ensures d in entries[..i]
    {
      GraphOfEdges(m, entries[i], d);
      assert !HidesEarly(entries, i, d);
    }
  }

  /** Occurrences of `n` are always preceded by `d`, yet the last one is followed
      by a further `d`: the verifier reports a violation that is none. */
  ghost predicate FalseAlarm(entries: seq<string>, n: string, d: string) {
    n in entries && d in entries && n != d && AlwaysAfter(entries, n, d) && !ListedAfter(entries, n, d)
  }

  /** And exactly which lists never get a false alarm. */
  lemma AlarmTrustedIff(entries: seq<string>)
    ensures (forall m :: Sound(m) && SafeToPublish(m, entries) ==> Clean(m, entries))
            <==> forall n, d :: !FalseAlarm(entries, n, d)
  {
    if n, d :| FalseAlarm(entries, n, d) {
      SingleEdgeNames(entries, {}, n, d);
      SingleEdgeAcyclic(entries, {}, n, d);
      SingleEdgeReport(entries, n, d);
      assert Sound(SingleEdge(entries, {}, n, d));
    } else {
      forall m | SafeToPublish(m, entries) ensures Clean(m, entries) {
        NoAlarmIsClean(m, entries);
      }
    }
  }

  lemma NoAlarmIsClean(m: Metadata, entries: seq<string>)
    requires SafeToPublish(m, entries) && forall n, d :: !FalseAlarm(entries, n, d)
    ensures Clean(m, entries)
  {
    CleanIffListedAndOrdered(m, entries);
    hide DependsOn, PublishableOf, ListedAfter, WorkspaceNames, Clean;
    forall n, d | n in Publishable(m) && d in Publishable(m) && DependsOn(m, n, d)
      ensures ListedAfter(entries, n, d)
    {
      GraphOfEdges(m, n, d);
      assert n in Elements(entries) && d in Elements(entries);
      assert !FalseAlarm(entries, n, d);
    }
  }

  /** Without duplicates neither happens, so a clean report means a safe order. */
  lemma CleanIffSafe(m: Metadata, entries: seq<string>)
    requires NoDuplicates(entries)
    ensures Clean(m, entries) <==> SafeToPublish(m, entries)
  {
    forall i: nat, d ensures !HidesEarly(entries, i, d) {
      if i < |entries| { OnlyOccurrence(entries, i, d); }
    }
    forall n, d ensures !FalseAlarm(entries, n, d) {
      if i :| 0 <= i < |entries| && entries[i] == n { OnlyOccurrence(entries, i, d); }
    }
    hide HidesEarly, FalseAlarm, Clean, SafeToPublish, NoDuplicates;
    if Clean(m, entries) { NothingHiddenIsSafe(m, entries); }
    if SafeToPublish(m, entries) { NoAlarmIsClean(m, entries); }
  }

  lemma OnlyOccurrence(entries: seq<string>, i: nat, d: string)
    requires NoDuplicates(entries) && i < |entries|
    ensures ListedAfter(entries, entries[i], d) <==> d in entries[..i]
  {
    if d in entries[..i] {
      var k :| 0 <= k < i && entries[..i][k] == d;
      assert entries[k] == d;
    }
    if ListedAfter(entries, entries[i], d) {
      var j :| 0 <= j < |entries| && entries[j] == d;
      assert entries[..i][j] == d;
    }
  }

  /** Only the last occurrence of a crate is looked at, so where `a` needs `b` the
      list `a b a` is clean although its first `a` comes before `b`; and the harmless
      `b a b` is reported. */
  lemma DuplicatesMislead()
    ensures var m := Metadata([Package("a", "a", None), Package("b", "b", None)], {"a", "b"},
                              [Node("a", [Dep("b", [None])])]);
            && Sound(m)
            && Clean(m, ["a", "b", "a"]) && !SafeToPublish(m, ["a", "b", "a"])
            && SafeToPublish(m, ["b", "a", "b"]) && !Clean(m, ["b", "a", "b"])
  {
    hide DependsOn, GraphOf, PublishableOf, WorkspaceNames, Clean, SafeToPublish, UniqueNames, SingleEdge, Acyclic;
    var names := ["a", "b"];
    var m := SingleEdge(names, {}, "a", "b");
    TwoCrates({});
    SingleEdgeNames(names, {}, "a", "b");
    SingleEdgeAcyclic(names, {}, "a", "b");
    forall x, y ensures DependsOn(m, x, y) <==> x == "a" && y == "b" {
      SingleEdgeDepends(names, {}, "a", "b", x, y);
    }
    HiddenEarly(m);
    HarmlessRepeat(m);
  }

  lemma TwoCrates(hidden: set<string>)
    ensures SingleEdge(["a", "b"], hidden, "a", "b") ==
            Metadata([CrateNamed("a", hidden), CrateNamed("b", hidden)], {"a", "b"}, [Node("a", [Dep("b", [None])])])
    ensures "a" in ["a", "b"] && "b" in ["a", "b"] && Elements(["a", "b"]) == {"a", "b"}
  {
    var names := ["a", "b"];
    assert names[0] == "a" && names[1] == "b";
    assert SingleEdge(names, hidden, "a", "b").packages == [CrateNamed("a", hidden), CrateNamed("b", hidden)];
  }

  lemma HiddenEarly(m: Metadata)
    requires WorkspaceNames(m) == Publishable(m) == {"a", "b"}
    requires forall x, y :: DependsOn(m, x, y) <==> x == "a" && y == "b"
    ensures Clean(m, ["a", "b", "a"]) && !SafeToPublish(m, ["a", "b", "a"])
  {
    hide DependsOn, PublishableOf, WorkspaceNames, Clean;
    var entries := ["a", "b", "a"];
    assert entries[0] == "a" && entries[1] == "b" && entries[2] == "a";
    assert Elements(entries) == {"a", "b"};
    assert ListedAfter(entries, "a", "b");
    CleanIffListedAndOrdered(m, entries);
    assert entries[..0] == [];
    assert DependsOn(m, entries[0], "b");
  }

  lemma HarmlessRepeat(m: Metadata)
    requires WorkspaceNames(m) == Publishable(m) == {"a", "b"}
    requires forall x, y :: DependsOn(m, x, y) <==> x == "a" && y == "b"
    ensures SafeToPublish(m, ["b", "a", "b"]) && !Clean(m, ["b", "a", "b"])
  {
    hide DependsOn, PublishableOf, WorkspaceNames, Clean;
    var entries := ["b", "a", "b"];
    assert entries[0] == "b" && entries[1] == "a" && entries[2] == "b";
    assert Elements(entries) == {"a", "b"};
    assert entries[..1][0] == "b";
    CleanIffListedAndOrdered(m, entries);
    assert DependsOn(m, "a", "b") && !ListedAfter(entries, "a", "b");
  }

  // --------------------------------------- the generator satisfies the verifier

  /** Every listed crate follows those of its workspace dependencies that are listed. */
  ghost predicate ListedDependenciesFirst(m: Metadata, out: seq<string>) {
    forall i, d | 0 <= i < |out| && d in out && DependsOn(m, out[i], d) :: d in out[..i]
  }

  /** Every listed crate follows all its workspace dependencies, which are listed. */
  ghost predicate AllDependenciesFirst(m: Metadata, out: seq<string>) {
    forall i, d | 0 <= i < |out| && DependsOn(m, out[i], d) :: d in out[..i]
  }

  /** No kept crate depends on one that is not kept. */
  ghost predicate ClosedUnderDependencies(m: Metadata, keep: set<string>) {
    forall n, d :: n in keep && DependsOn(m, n, d) ==> d in keep
  }

  /** Any filter of the topological order puts each kept crate after its kept
      dependencies, and after all of them exactly when none was filtered out. If it
      keeps at least what the verifier calls publishable, it is clean. */
  lemma FilteredOrderIsClean(m: Metadata, keep: set<string>)
    requires Acyclic(GraphOf(m)) && keep <= WorkspaceNames(m)
    ensures var out := FilterNames(Order(GraphOf(m)), keep);
            && NoDuplicates(out) && Elements(out) == keep && ListedDependenciesFirst(m, out)
            && (AllDependenciesFirst(m, out) <==> ClosedUnderDependencies(m, keep))
            && (Publishable(m) <= keep ==> Clean(m, out) && SafeToPublish(m, out))
  {
    hide GraphOf, Order, FilterNames, DependsOn, NoDuplicates, PublishableOf, WorkspaceNames, Clean;
    var out := FilterNames(Order(GraphOf(m)), keep);
    GraphNames(m);
    FilterListsAll(GraphOf(m), keep);
    forall i, d | 0 <= i < |out| && d in out && DependsOn(m, out[i], d) ensures d in out[..i] {
      assert d in Elements(out);
      FilteredDependencyFirst(m, keep, i, d);
    }
    KeptWithDependencies(m, out);
    if Publishable(m) <= keep {
      ListedIsSafe(m, out);
      CleanIffSafe(m, out);
    }
  }

  lemma GraphNames(m: Metadata)
    ensures GraphOf(m).names == WorkspaceNames(m)
  {
  }

  lemma KeptWithDependencies(m: Metadata, out: seq<string>)
    requires ListedDependenciesFirst(m, out)
    ensures AllDependenciesFirst(m, out) <==> ClosedUnderDependencies(m, Elements(out))
  {
    hide DependsOn;
    if AllDependenciesFirst(m, out) {
      forall n, d | n in Elements(out) && DependsOn(m, n, d) ensures d in Elements(out) {
        var i :| 0 <= i < |out| && out[i] == n;
        var k :| 0 <= k < i && out[..i][k] == d;
        assert out[k] == d;
      }
    }
    if ClosedUnderDependencies(m, Elements(out)) {
      forall i, d | 0 <= i < |out| && DependsOn(m, out[i], d) ensures d in out[..i] {
        assert out[i] in Elements(out);
        assert d in Elements(out);
      }
    }
  }

  lemma ListedIsSafe(m: Metadata, out: seq<string>)
    requires ListedDependenciesFirst(m, out) && Publishable(m) <= Elements(out) <= WorkspaceNames(m)
    ensures SafeToPublish(m, out)
  {
    hide DependsOn, PublishableOf, WorkspaceNames;
    forall i, d | 0 <= i < |out| && out[i] in Publishable(m) && d in Publishable(m) && DependsOn(m, out[i], d)
      ensures d in out[..i]
    {
      assert d in Elements(out);
    }
  }

  lemma FilterListsAll(g: Graph, keep: set<string>)
    requires Acyclic(g) && keep <= g.names
    ensures NoDuplicates(FilterNames(Order(g), keep))
    ensures Elements(FilterNames(Order(g), keep)) == keep
  {
    OrderCharacterised(g);
    StuckEmptyIffAcyclic(g);
    FilterKeepsOrder(Order(g), keep);
    forall n | n in g.names ensures n in Order(g) {
      StuckIffDependsOnCycle(g, n);
    }
  }

  lemma NotBefore(s: seq<string>, q: nat, p: nat)
    requires NoDuplicates(s) && q < p < |s|
    ensures !ComesBefore(s, s[p], s[q]) && s[p] != s[q]
  {
  }

  lemma FilteredDependencyFirst(m: Metadata, keep: set<string>, i: nat, d: string)
    requires i < |FilterNames(Order(GraphOf(m)), keep)| && d in keep
    requires DependsOn(m, FilterNames(Order(GraphOf(m)), keep)[i], d)
    ensures d in FilterNames(Order(GraphOf(m)), keep)[..i]
  {
    hide GraphOf, Order, FilterNames, DependsOn, Precedes;
    var g := GraphOf(m);
    var full := Order(g);
    var out := FilterNames(full, keep);
    OrderCharacterised(g);
    FilterKeepsOrder(full, keep);
    assert out[i] in full;
    var p :| 0 <= p < |full| && full[p] == out[i];
    GraphOfEdges(m, full[p], d);
    DependenciesFirst(g, p, d);
    var q :| 0 <= q < p && full[q] == d;
    KeptEarlier(full, keep, q, p, i);
  }

  lemma KeptEarlier(full: seq<string>, keep: set<string>, q: nat, p: nat, i: nat)
    requires NoDuplicates(full) && q < p < |full| && full[q] in keep
    requires i < |FilterNames(full, keep)| && FilterNames(full, keep)[i] == full[p]
    ensures full[q] in FilterNames(full, keep)[..i]
  {
    hide FilterNames;
    var out := FilterNames(full, keep);
    FilterKeepsOrder(full, keep);
    assert full[q] in out;
    var k :| 0 <= k < |out| && out[k] == full[q];
    NotBefore(full, q, p);
    assert out[..i][k] == full[q];
  }

  /** The file the generator writes passes the verifier on the same metadata,
      although the two scripts disagree on what is publishable. It lists each crate
      after its listed dependencies; that it does so after all of them, as its header
      says, holds exactly when no publishable crate needs an unpublishable one. */
  lemma GeneratedOrderIsClean(m: Metadata)
    requires Acyclic(GraphOf(m))
    ensures var out, keep := PublishOrder(m), PublishableOf(m, GenPublishable);
            && NoDuplicates(out) && Elements(out) == keep
            && Clean(m, out) && SafeToPublish(m, out)
            && ListedDependenciesFirst(m, out)
            && (AllDependenciesFirst(m, out) <==> ClosedUnderDependencies(m, keep))
  {
    assert Publishable(m) <= PublishableOf(m, GenPublishable) <= WorkspaceNames(m);
    hide GraphOf, Order, FilterNames, DependsOn, NoDuplicates, WorkspaceNames, Clean, SafeToPublish;
    FilteredOrderIsClean(m, PublishableOf(m, GenPublishable));
  }

  /** Where `a` needs `b` and `b` has `publish = false`, the generated list is `a` alone.
      It is clean, and its header's promise is broken. */
  lemma UnpublishedDependency()
    ensures var m := Metadata([Package("a", "a", None), Package("b", "b", Some([]))], {"a", "b"},
                              [Node("a", [Dep("b", [None])])]);
            && Sound(m) && DependsOn(m, "a", "b")
            && PublishOrder(m) == ["a"] && Clean(m, ["a"]) && SafeToPublish(m, ["a"])
            && !AllDependenciesFirst(m, ["a"])
  {
    hide GraphOf, UniqueNames, PublishableOf, WorkspaceNames, Clean, SafeToPublish, DependsOn, PublishOrder, SingleEdge,
         Acyclic, NoDuplicates, Elements;
    var names := ["a", "b"];
    var m := SingleEdge(names, {"b"}, "a", "b");
    TwoCrates({"b"});
    SingleEdgeNames(names, {"b"}, "a", "b");
    SingleEdgeAcyclic(names, {"b"}, "a", "b");
    SingleEdgeDepends(names, {"b"}, "a", "b", "a", "b");
    GeneratedOrderIsClean(m);
    assert Elements(names) - {"b"} == {"a"};
    OnlyElement(PublishOrder(m), "a");
    assert PublishOrder(m)[0] == "a" && PublishOrder(m)[..0] == [];
  }

  lemma OnlyElement(s: seq<string>, x: string)
    requires NoDuplicates(s) && Elements(s) == {x}
    ensures s == [x]
  {
    ElementsEmpty(s);
    assert |s| < 2 || s[0] != s[1];
    forall i | 0 <= i < |s| ensures s[i] == x { assert s[i] in Elements(s); }
  }

  /** The array that `--emit-order` prints, pasted into a script and read back
      by the verifier, is clean on the same metadata. */
  lemma EmittedArrayIsClean(m: Metadata, pre: string, post: string)
    requires Acyclic(GraphOf(m)) && forall n :: n in WorkspaceNames(m) ==> Printable(n)
    requires Undisturbed(pre)
    ensures var emitted := FilterNames(Order(GraphOf(m)), Publishable(m));
            Clean(m, ParseCratesArray(pre + Format(emitted) + post))
  {
    var emitted := FilterNames(Order(GraphOf(m)), Publishable(m));
    FilteredOrderIsClean(m, Publishable(m));
    assert forall n :: n in emitted ==> n in Elements(emitted);
    RoundTrip(pre, emitted, post);
  }
}
