/** The part of `cargo metadata` that both publish scripts read, and the
    dependency graph that their `build_graph` extracts from it. */
module Workspace {
  import opened Prelude
  import opened Names
  import opened DependencyGraph

  /** `publish` is None when unset, `Some([])` for `publish = false`, and a list
      of allowed registries otherwise. */
  datatype Package = Package(id: string, name: string, publish: Option<seq<string>>)

  /** A resolved dependency; a kind is None (normal), "build" or "dev". */
  datatype Dep = Dep(pkg: string, kinds: seq<Option<string>>)

  datatype Node = Node(id: string, deps: seq<Dep>)

  datatype Metadata = Metadata(packages: seq<Package>, members: set<string>, nodes: seq<Node>)

  /** `{p["id"]: p for p in packages}`: a later package replaces an earlier one. */
  function IndexPackages(ps: seq<Package>): map<string, Package> {
    if ps == [] then map[]
    else IndexPackages(ps[..|ps| - 1])[ps[|ps| - 1].id := ps[|ps| - 1]]
  }

  function IndexNodes(ns: seq<Node>): map<string, Node> {
    if ns == [] then map[]
    else IndexNodes(ns[..|ns| - 1])[ns[|ns| - 1].id := ns[|ns| - 1]]
  }

  /** The workspace members that are among the packages. */
  function MemberIds(m: Metadata): set<string> {
    m.members * IndexPackages(m.packages).Keys
  }

  function WorkspaceNames(m: Metadata): set<string> {
    set i | i in MemberIds(m) :: IndexPackages(m.packages)[i].name
  }

  /** Cargo refuses a workspace with two members of the same name. */
  ghost predicate UniqueNames(m: Metadata) {
    var pkgs := IndexPackages(m.packages);
    forall i, j :: i in MemberIds(m) && j in MemberIds(m) && pkgs[i].name == pkgs[j].name ==> i == j
  }

  /** The edge is needed at publish time: not dev-only. */
  predicate PublishEdge(d: Dep) {
    exists k :: k in d.kinds && (k == None || k == Some("build"))
  }

  /** `d` is the name of another member of the workspace that package `id`
      resolves to through a normal or build edge. */
  ghost predicate NodeDependsOn(m: Metadata, id: string, d: string) {
    var pkgs, nodes := IndexPackages(m.packages), IndexNodes(m.nodes);
    && id in pkgs && id in nodes
    && d in WorkspaceNames(m) && d != pkgs[id].name
    && exists e :: e in nodes[id].deps && e.pkg in pkgs && pkgs[e.pkg].name == d && PublishEdge(e)
  }

  /** Workspace crate `n` needs workspace crate `d` on the registry first. */
  ghost predicate DependsOn(m: Metadata, n: string, d: string) {
    exists id :: id in MemberIds(m) && IndexPackages(m.packages)[id].name == n && NodeDependsOn(m, id, d)
  }

  /** The graph the metadata describes. */
  ghost function GraphOf(m: Metadata): Graph {
    var names := WorkspaceNames(m);
    Graph(names, map n | n in names :: set d | d in names && DependsOn(m, n, d))
  }

  ghost predicate SameEdges(a: map<string, set<string>>, b: map<string, set<string>>) {
    forall n :: Get(a, n) == Get(b, n)
  }

  ghost function PublishableOf(m: Metadata, publishes: Package -> bool): set<string> {
    set i | i in MemberIds(m) && publishes(IndexPackages(m.packages)[i]) :: IndexPackages(m.packages)[i].name
  }

  /** The dependency names collected from one resolve node. */
  method NodeDeps(m: Metadata, pkgs: map<string, Package>, wsNames: set<string>, name: string, node: Node)
    returns (r: set<string>)
    ensures forall d :: d in r <==>
                          && d != name && d in wsNames
                          && exists e :: e in node.deps && e.pkg in pkgs && pkgs[e.pkg].name == d && PublishEdge(e)
  {
    r := {};
    for i := 0 to |node.deps|
      invariant forall d :: d in r <==>
                              && d != name && d in wsNames
                              && exists e :: && e in node.deps[..i] && e.pkg in pkgs
                                             && pkgs[e.pkg].name == d && PublishEdge(e)
    {
      var e := node.deps[i];
      assert node.deps[..i + 1] == node.deps[..i] + [e];
      if e.pkg in pkgs {
        var depName := pkgs[e.pkg].name;
        if depName != name && depName in wsNames {
          if PublishEdge(e) {
            r := r + {depName};
          }
        }
      }
    }
    assert node.deps[..|node.deps|] == node.deps;
  }

  /** The loop over `ws_ids`: which member carries each name, and whether it is
      publishable. The set of ids is visited in an arbitrary order. */
  method NameMembers(m: Metadata, publishes: Package -> bool)
    returns (nameToId: map<string, string>, publishable: map<string, bool>)
    requires UniqueNames(m)
    ensures nameToId.Keys == WorkspaceNames(m) && publishable.Keys == WorkspaceNames(m)
    ensures forall n :: n in nameToId ==>
                          && nameToId[n] in MemberIds(m)
                          && IndexPackages(m.packages)[nameToId[n]].name == n
                          && publishable[n] == publishes(IndexPackages(m.packages)[nameToId[n]])
  {
    var pkgs := IndexPackages(m.packages);
    nameToId, publishable := map[], map[];
    var todo := m.members;
    while todo != {}
      invariant todo <= m.members
      invariant forall i :: i in MemberIds(m) && i !in todo ==> pkgs[i].name in nameToId
      invariant publishable.Keys == nameToId.Keys
      invariant forall n :: n in nameToId ==>
                              && nameToId[n] in MemberIds(m)
                              && pkgs[nameToId[n]].name == n
                              && publishable[n] == publishes(pkgs[nameToId[n]])
      decreases todo
    {
      var pid :| pid in todo;
      todo := todo - {pid};
      if pid in pkgs {
        var pkg := pkgs[pid];
        nameToId := nameToId[pkg.name := pid];
        publishable := publishable[pkg.name := publishes(pkg)];
      }
    }
  }

  method BuildGraph(m: Metadata, publishes: Package -> bool)
    returns (wsNames: set<string>, deps: map<string, set<string>>, publishable: map<string, bool>)
    requires UniqueNames(m)
    ensures wsNames == GraphOf(m).names == publishable.Keys
    ensures SameEdges(deps, GraphOf(m).deps)
    ensures (set n | n in publishable && publishable[n]) == PublishableOf(m, publishes)
  {
    var pkgs, nodes := IndexPackages(m.packages), IndexNodes(m.nodes);
    wsNames := WorkspaceNames(m);
    var nameToId;
    nameToId, publishable := NameMembers(m, publishes);
    deps := map[];
    ghost var edges := GraphOf(m).deps;
    var todo := wsNames;
    while todo != {}
      invariant todo <= wsNames
      invariant deps.Keys !! todo && deps.Keys <= wsNames
      invariant AgreeOn(deps, edges, wsNames - todo)
      decreases todo
    {
      var name :| name in todo;
      ghost var visited := wsNames - todo;
      todo := todo - {name};
      assert wsNames - todo == visited + {name};
      var pid := nameToId[name];
      var node := if pid in nodes then nodes[pid] else Node(pid, []);
      var found := NodeDeps(m, pkgs, wsNames, name, node);
      EdgesOfMember(m, name, pid, node, found);
      AddDeps(deps, name, found, edges, visited);
      if found != {} {
        deps := deps[name := found];
      }
    }
    PublishableNames(m, publishes, nameToId, publishable);
    forall n ensures Get(deps, n) == Get(edges, n) {
      if n in wsNames { assert n in wsNames - todo; }
    }
  }

  ghost predicate AgreeOn(a: map<string, set<string>>, b: map<string, set<string>>, names: set<string>) {
    forall n :: n in names ==> Get(a, n) == Get(b, n)
  }

  lemma AddDeps(deps: map<string, set<string>>, name: string, found: set<string>,
                edges: map<string, set<string>>, names: set<string>)
    requires AgreeOn(deps, edges, names) && name !in deps && found == Get(edges, name)
    ensures AgreeOn(if found != {} then deps[name := found] else deps, edges, names + {name})
  {
  }

  /** With unique names, the one resolve node that is read has all the edges. */
  lemma EdgesOfMember(m: Metadata, name: string, pid: string, node: Node, found: set<string>)
    requires UniqueNames(m)
    requires pid in MemberIds(m) && IndexPackages(m.packages)[pid].name == name
    requires var nodes := IndexNodes(m.nodes); node == if pid in nodes then nodes[pid] else Node(pid, [])
    requires var pkgs := IndexPackages(m.packages);
             forall d :: d in found <==>
                           && d != name && d in WorkspaceNames(m)
                           && exists e :: e in node.deps && e.pkg in pkgs && pkgs[e.pkg].name == d && PublishEdge(e)
    ensures found == Get(GraphOf(m).deps, name)
  {
    forall d ensures d in found <==> NodeDependsOn(m, pid, d) {
    }
    forall d ensures d in found <==> DependsOn(m, name, d) {
      if id :| id in MemberIds(m) && IndexPackages(m.packages)[id].name == name && NodeDependsOn(m, id, d) {
        assert id == pid;
      }
    }
    assert name in WorkspaceNames(m);
  }

  lemma PublishableNames(m: Metadata, publishes: Package -> bool,
                         nameToId: map<string, string>, publishable: map<string, bool>)
    requires UniqueNames(m)
    requires nameToId.Keys == WorkspaceNames(m) && publishable.Keys == WorkspaceNames(m)
    requires forall n :: n in nameToId ==>
                           && nameToId[n] in MemberIds(m)
                           && IndexPackages(m.packages)[nameToId[n]].name == n
                           && publishable[n] == publishes(IndexPackages(m.packages)[nameToId[n]])
    ensures (set n | n in publishable && publishable[n]) == PublishableOf(m, publishes)
  {
  }

  // ------------------------------------------------- in terms of the metadata

  /** Ids are unique, as they are in the output of Cargo. */
  ghost predicate DistinctIds(m: Metadata) {
    && (forall i, j :: 0 <= i < j < |m.packages| ==> m.packages[i].id != m.packages[j].id)
    && (forall i, j :: 0 <= i < j < |m.nodes| ==> m.nodes[i].id != m.nodes[j].id)
  }

  ghost predicate Member(m: Metadata, p: Package) {
    p in m.packages && p.id in m.members
  }

  /** Member `p` has an edge, not for development only, to package `q`. */
  ghost predicate HasEdge(m: Metadata, p: Package, q: Package) {
    && q in m.packages
    && exists v, e :: v in m.nodes && v.id == p.id && e in v.deps && e.pkg == q.id
                      && (None in e.kinds || Some("build") in e.kinds)
  }

  lemma {:induction false} PackageIndexed(ps: seq<Package>, p: Package)
    requires forall i, j :: 0 <= i < j < |ps| ==> ps[i].id != ps[j].id
    ensures p in ps <==> p.id in IndexPackages(ps) && IndexPackages(ps)[p.id] == p
    ensures forall i :: i in IndexPackages(ps) ==> IndexPackages(ps)[i] in ps && IndexPackages(ps)[i].id == i
  {
    if ps != [] {
      var k := |ps| - 1;
      PackageIndexed(ps[..k], p);
      assert ps == ps[..k] + [ps[k]];
      if p in ps[..k] {
        var i :| 0 <= i < k && ps[i] == p;
        assert ps[i].id != ps[k].id;
      }
    }
  }

  lemma {:induction false} NodeIndexed(ns: seq<Node>, v: Node)
    requires forall i, j :: 0 <= i < j < |ns| ==> ns[i].id != ns[j].id
    ensures v in ns <==> v.id in IndexNodes(ns) && IndexNodes(ns)[v.id] == v
    ensures forall i :: i in IndexNodes(ns) ==> IndexNodes(ns)[i] in ns && IndexNodes(ns)[i].id == i
  {
    if ns != [] {
      var k := |ns| - 1;
      NodeIndexed(ns[..k], v);
      assert ns == ns[..k] + [ns[k]];
      if v in ns[..k] {
        var i :| 0 <= i < k && ns[i] == v;
        assert ns[i].id != ns[k].id;
      }
    }
  }

  /** Which names are in the workspace. */
  lemma NamesMeaning(m: Metadata, n: string)
    requires DistinctIds(m)
    ensures n in WorkspaceNames(m) <==> exists p :: Member(m, p) && p.name == n
  {
    var pkgs := IndexPackages(m.packages);
    forall p ensures p in m.packages <==> p.id in pkgs && pkgs[p.id] == p { PackageIndexed(m.packages, p); }
    hide IndexPackages;
    if n in WorkspaceNames(m) {
      var i :| i in MemberIds(m) && pkgs[i].name == n;
      PackageIndexed(m.packages, pkgs[i]);
      assert Member(m, pkgs[i]);
    }
    if p :| Member(m, p) && p.name == n {
      assert p.id in MemberIds(m);
    }
  }

  /** Which crates depend on which: the one has an edge to a package with the name of
      the other, which another member has too. */
  lemma DependsMeaning(m: Metadata, n: string, d: string)
    requires DistinctIds(m)
    ensures DependsOn(m, n, d) <==>
            && n != d && (exists r :: Member(m, r) && r.name == d)
            && exists p, q: Package :: Member(m, p) && p.name == n && q.name == d && HasEdge(m, p, q)
  {
    NamesMeaning(m, d);
    hide IndexPackages, IndexNodes, PublishEdge, WorkspaceNames;
    if DependsOn(m, n, d) {
      DependsFound(m, n, d);
    }
    if p, q: Package :| Member(m, p) && p.name == n && q.name == d && HasEdge(m, p, q) {
      if n != d && d in WorkspaceNames(m) { EdgeDepends(m, p, q); }
    }
  }

  lemma DependsFound(m: Metadata, n: string, d: string)
    requires DistinctIds(m) && DependsOn(m, n, d)
    ensures n != d && d in WorkspaceNames(m)
    ensures exists p, q: Package :: Member(m, p) && p.name == n && q.name == d && HasEdge(m, p, q)
  {
    hide IndexPackages, IndexNodes, WorkspaceNames;
    var pkgs, nodes := IndexPackages(m.packages), IndexNodes(m.nodes);
    var id :| id in MemberIds(m) && pkgs[id].name == n && NodeDependsOn(m, id, d);
    var e :| e in nodes[id].deps && e.pkg in pkgs && pkgs[e.pkg].name == d && PublishEdge(e);
    PackageIndexed(m.packages, pkgs[id]);
    NodeIndexed(m.nodes, nodes[id]);
    assert HasEdge(m, pkgs[id], pkgs[e.pkg]);
    assert Member(m, pkgs[id]);
  }

  lemma EdgeDepends(m: Metadata, p: Package, q: Package)
    requires DistinctIds(m) && Member(m, p) && HasEdge(m, p, q) && p.name != q.name && q.name in WorkspaceNames(m)
    ensures DependsOn(m, p.name, q.name)
  {
    var v, e :| v in m.nodes && v.id == p.id && e in v.deps && e.pkg == q.id
                && (None in e.kinds || Some("build") in e.kinds);
    PackageIndexed(m.packages, p);
    PackageIndexed(m.packages, q);
    NodeIndexed(m.nodes, v);
    assert PublishEdge(e);
    hide IndexPackages, IndexNodes, WorkspaceNames, PublishEdge;
    assert NodeDependsOn(m, p.id, q.name);
  }

  /** Which names a script calls publishable. */
  lemma PublishableMeaning(m: Metadata, publishes: Package -> bool, n: string)
    requires DistinctIds(m)
    ensures n in PublishableOf(m, publishes) <==> exists p :: Member(m, p) && p.name == n && publishes(p)
  {
    var pkgs := IndexPackages(m.packages);
    forall p ensures p in m.packages <==> p.id in pkgs && pkgs[p.id] == p { PackageIndexed(m.packages, p); }
    hide IndexPackages;
    if n in PublishableOf(m, publishes) {
      var i :| i in MemberIds(m) && publishes(pkgs[i]) && pkgs[i].name == n;
      PackageIndexed(m.packages, pkgs[i]);
      assert Member(m, pkgs[i]);
    }
    if p :| Member(m, p) && p.name == n && publishes(p) {
      assert p.id in MemberIds(m);
    }
  }

  /** No crate depends on itself and no dependency leaves the workspace. */
  lemma GraphOfEdges(m: Metadata, n: string, d: string)
    ensures d in Get(GraphOf(m).deps, n) <==> DependsOn(m, n, d)
    ensures DependsOn(m, n, d) ==> n in GraphOf(m).names && d in Deps(GraphOf(m), n) && n != d
  {
  }
}
