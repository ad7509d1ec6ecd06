/** internal/dag/dag.go and the executor's buildSubgraph: collecting an asset's
    upstream closure, building its dependency graph, and Kahn's ordering. */
module Dag {
  import opened Graphs
  import opened Options

  /** The asset registry: name to declared upstream list (internal/asset/registry.go). */
  type Registry = map<string, seq<string>>

  datatype Asset = Asset(name: string, upstreams: seq<string>)

  datatype Error = DuplicateVertex | UnknownUpstream | Cycle | MissingUpstream

  datatype Result<+T> = Ok(value: T) | Err(error: Error)

  /** The dependency edges upstream -> asset declared by the registry. */
  ghost function RegistryEdges(reg: Registry): set<(string, string)> {
    set a, u | a in reg && u in reg[a] :: (u, a)
  }

  /** a needs u, directly, through others, or because it is u. */
  ghost predicate Needs(reg: Registry, u: string, a: string) {
    ReachesOrIs(RegistryEdges(reg), u, a)
  }

  ghost predicate UpstreamsKnown(reg: Registry, v: string) {
    v in reg && forall u | u in reg[v] :: u in reg
  }

  function Names(assets: seq<Asset>): seq<string> {
    seq(|assets|, i requires 0 <= i < |assets| => assets[i].name)
  }

  /** The recursive walk of buildSubgraph with the two variables it mutates. */
  class Walker {
    const reg: Registry
    var seen: set<string>
    var assets: seq<Asset>

    constructor (reg: Registry)
      ensures this.reg == reg && seen == {} && assets == []
    {
      this.reg := reg;
      seen, assets := {}, [];
    }

    ghost predicate Valid()
      reads this
    {
      && seen <= reg.Keys
      && Distinct(Names(assets))
      && (forall v :: v in seen <==> v in Names(assets))
      && (forall x | x in assets :: x.name in reg && x.upstreams == reg[x.name])
    }

    /** Everything newly seen is needed by `name` and, on success, has all its upstreams seen. */
    method Walk(name: string) returns (ok: bool)
      requires Valid() && name in reg
      modifies this
      decreases reg.Keys - seen
      ensures Valid() && old(seen) + {name} <= seen
      ensures NeededBy(reg, seen - old(seen), name)
      ensures ok ==> UpstreamsIn(reg, seen - old(seen), seen)
      ensures !ok ==> exists v :: Needs(reg, v, name) && v in reg && !UpstreamsKnown(reg, v)
    {
      if name in seen {
        return true;
      }
      Visit(name);
      NeedsSelf(reg, name);
      var ups := reg[name];
      for i := 0 to |ups|
        invariant Valid() && old(seen) + {name} <= seen
        invariant NeededBy(reg, seen - old(seen), name)
        invariant UpstreamsIn(reg, seen - old(seen) - {name}, seen)
        invariant forall j | 0 <= j < i :: ups[j] in seen
      {
        if ups[i] !in reg {
          return false;
        }
        NeedsOneStepUp(reg, ups[i], name);
        ok := Walk(ups[i]);
        if !ok {
          return;
        }
      }
      ok := true;
    }

    method Visit(name: string)
      requires Valid() && name in reg && name !in seen
      modifies this
      ensures Valid() && seen == old(seen) + {name}
    {
      seen := seen + {name};
      assets := assets + [Asset(name, reg[name])];
      assert Names(assets) == Names(old(assets)) + [name];
    }
  }

  ghost predicate NeededBy(reg: Registry, s: set<string>, name: string) {
    forall v | v in s :: Needs(reg, v, name)
  }

  ghost predicate UpstreamsIn(reg: Registry, s: set<string>, seen: set<string>) {
    forall v | v in s :: v in reg && forall u | u in reg[v] :: u in seen
  }

  lemma NeedsSelf(reg: Registry, a: string)
    ensures Needs(reg, a, a)
  {
    assert WalkFromTo(RegistryEdges(reg), a, a, [a]);
  }

  lemma NeedsStep(reg: Registry, v: string, u: string, a: string)
    requires Needs(reg, v, u) && a in reg && u in reg[a]
    ensures Needs(reg, v, a)
  {
    var p :| WalkFromTo(RegistryEdges(reg), v, u, p);
    StepWalk(RegistryEdges(reg), v, u, a, p);
  }

  lemma NeedsOneStepUp(reg: Registry, u: string, a: string)
    requires a in reg && u in reg[a]
    ensures forall v | Needs(reg, v, u) :: Needs(reg, v, a)
  {
    forall v | Needs(reg, v, u)
      ensures Needs(reg, v, a)
    {
      NeedsStep(reg, v, u, a);
    }
  }

  /** A set closed under upstreams that holds a also holds all that a needs. */
  lemma {:induction false} ClosedHoldsNeeds(reg: Registry, s: set<string>, v: string, a: string, p: seq<string>)
    requires a in s && s <= reg.Keys && (forall x | x in s :: forall u | u in reg[x] :: u in s)
    requires WalkFromTo(RegistryEdges(reg), v, a, p)
    ensures v in s
    decreases |p|
  {
    if |p| > 1 {
      var k := |p| - 2;
      assert (p[k], p[k + 1]) in RegistryEdges(reg);
      ClosedHoldsNeeds(reg, s, v, p[k], p[..k + 1]);
    }
  }

  /** buildSubgraph up to its call of BuildDAG: the assets are exactly the target's
      upstream closure, each once; it fails exactly when that closure names an
      asset that is not registered. */
  method CollectSubgraph(reg: Registry, target: string) returns (r: Result<seq<Asset>>)
    requires target in reg
    ensures r.Ok? ==> Distinct(Names(r.value)) && forall x | x in r.value :: x.name in reg && x.upstreams == reg[x.name]
    ensures r.Ok? ==> forall v :: v in Names(r.value) <==> Needs(reg, v, target)
    ensures r.Ok? <==> forall v | Needs(reg, v, target) :: UpstreamsKnown(reg, v)
    ensures r.Err? ==> r.error == MissingUpstream
  {
    var w := new Walker(reg);
    var ok := w.Walk(target);
    if !ok {
      return Err(MissingUpstream);
    }
    forall v | Needs(reg, v, target)
      ensures v in w.seen
    {
      var p :| WalkFromTo(RegistryEdges(reg), v, target, p);
      ClosedHoldsNeeds(reg, w.seen, v, target, p);
    }
    r := Ok(w.assets);
  }

  // ----- BuildDAG -----

  /** The part of heimdalr's DAG that dag.go uses. Its documented contract: an edge
      is refused when an end is unknown, when it is already there, and when it would
      close a cycle. */
  class HeimdalrDag {
    var vertices: set<string>
    var edges: set<(string, string)>

    constructor ()
      ensures vertices == {} && edges == {}
    {
      vertices, edges := {}, {};
    }

    ghost predicate Valid()
      reads this
    {
      && (forall e | e in edges :: e.0 in vertices && e.1 in vertices)
      && Acyclic(edges)
    }

    method AddVertexByID(id: string) returns (ok: bool)
      modifies this`vertices
      ensures ok == (id !in old(vertices)) && vertices == old(vertices) + {id}
    {
      ok := id !in vertices;
      vertices := vertices + {id};
    }

    /** All vertices that can be reached from v over at least one edge. */
    method Descendants(v: string) returns (d: set<string>)
      ensures forall x :: x in d <==> Reaches(edges, v, x)
    {
      d := {};
      var frontier := set e | e in edges && e.0 == v :: e.1;
      ghost var targets := set e | e in edges :: e.1;
      FirstReached(edges, v, frontier);
      while frontier != {}
        invariant d <= targets && frontier <= targets && d !! frontier
        invariant AllReached(edges, v, d) && AllReached(edges, v, frontier)
        invariant forall e | e in edges && (e.0 == v || e.0 in d) :: e.1 in d + frontier
        decreases targets - d
      {
        var reached := set e | e in edges && e.0 in frontier :: e.1;
        NewlyReached(edges, v, frontier, reached);
        d := d + frontier;
        frontier := reached - d;
      }
      NothingElseReached(edges, v, d);
    }

    method AddEdge(src: string, dst: string) returns (ok: bool)
      requires Valid()
      modifies this`edges
      ensures Valid()
      ensures ok <==> src in vertices && dst in vertices && src != dst && (src, dst) !in old(edges)
                      && !Reaches(old(edges), dst, src)
      ensures edges == old(edges) + (if ok then {(src, dst)} else {})
    {
      if src !in vertices || dst !in vertices || src == dst || (src, dst) in edges {
        return false;
      }
      var below := Descendants(dst);
      if src in below {
        return false;
      }
      AddEdgeKeepsAcyclic(edges, src, dst);
      edges := edges + {(src, dst)};
      ok := true;
    }
  }

  ghost predicate AllReached(edges: set<(string, string)>, v: string, s: set<string>) {
    forall x | x in s :: Reaches(edges, v, x)
  }

  lemma FirstReached(edges: set<(string, string)>, v: string, frontier: set<string>)
    requires forall x | x in frontier :: (v, x) in edges
    ensures AllReached(edges, v, frontier)
  {
    forall x | x in frontier
      ensures Reaches(edges, v, x)
    {
      assert WalkFromTo(edges, v, x, [v, x]);
    }
  }

  lemma NewlyReached(edges: set<(string, string)>, v: string, frontier: set<string>, reached: set<string>)
    requires AllReached(edges, v, frontier)
    requires forall x | x in reached :: exists e :: e in edges && e.0 in frontier && e.1 == x
    ensures AllReached(edges, v, reached)
  {
    forall x | x in reached
      ensures Reaches(edges, v, x)
    {
      var e :| e in edges && e.0 in frontier && e.1 == x;
      var p :| WalkFromTo(edges, v, e.0, p) && |p| >= 2;
      StepWalk(edges, v, e.0, x, p);
    }
  }

  lemma NothingElseReached(edges: set<(string, string)>, v: string, d: set<string>)
    requires forall e | e in edges && (e.0 == v || e.0 in d) :: e.1 in d
    ensures forall x | Reaches(edges, v, x) :: x in d
  {
    forall x | Reaches(edges, v, x)
      ensures x in d
    {
      var p :| WalkFromTo(edges, v, x, p) && |p| >= 2;
      ClosedUnderEdges(edges, v, d, p);
    }
  }

  lemma {:induction false} ClosedUnderEdges(edges: set<(string, string)>, v: string, d: set<string>, p: seq<string>)
    requires IsWalk(edges, p) && p[0] == v && |p| >= 2
    requires forall e | e in edges && (e.0 == v || e.0 in d) :: e.1 in d
    ensures p[|p| - 1] in d
    decreases |p|
  {
    var k := |p| - 2;
    assert (p[k], p[k + 1]) in edges;
    if k > 0 {
      ClosedUnderEdges(edges, v, d, p[..k + 1]);
    }
  }

  ghost function EdgesOf(assets: seq<Asset>): set<(string, string)> {
    set i, u | 0 <= i < |assets| && u in assets[i].upstreams :: (u, assets[i].name)
  }

  ghost function OwnEdges(name: string, upstreams: seq<string>): set<(string, string)> {
    set u | u in upstreams :: (u, name)
  }

  ghost predicate AllUpstreamsListed(assets: seq<Asset>) {
    forall x | x in assets :: forall u | u in x.upstreams :: u in Names(assets)
  }

  ghost predicate NoRepeatedUpstream(assets: seq<Asset>) {
    forall x | x in assets :: Distinct(x.upstreams)
  }

  /** The edges of the assets before i and of the first k upstreams of asset i. */
  ghost predicate EdgesUpTo(assets: seq<Asset>, i: nat, k: nat, edges: set<(string, string)>)
    requires i < |assets| && k <= |assets[i].upstreams|
  {
    var ups := assets[i].upstreams[..k];
    && edges == EdgesOf(assets[..i]) + OwnEdges(assets[i].name, ups)
    && Distinct(ups) && forall u | u in ups :: u in Names(assets)
  }

  /** The inner loop of BuildDAG's second pass: the edges of one asset. */
  method AddUpstreams(d: HeimdalrDag, assets: seq<Asset>, i: nat) returns (error: Option<Error>)
    requires Distinct(Names(assets)) && i < |assets| && d.Valid() && assets[i].name in d.vertices
    requires d.edges == EdgesOf(assets[..i]) && forall v :: v in d.vertices <==> v in Names(assets)
    modifies d`edges
    ensures error.None? ==> d.Valid() && EdgesUpTo(assets, i, |assets[i].upstreams|, d.edges)
    ensures error == Some(UnknownUpstream) ==> !AllUpstreamsListed(assets)
    ensures error == Some(Cycle) ==> !Acyclic(EdgesOf(assets)) || !NoRepeatedUpstream(assets)
    ensures error in {None, Some(UnknownUpstream), Some(Cycle)}
  {
    var ups := assets[i].upstreams;
    for k := 0 to |ups|
      invariant d.Valid() && EdgesUpTo(assets, i, k, d.edges)
    {
      if ups[k] !in d.vertices {
        assert assets[i] in assets;
        return Some(UnknownUpstream);
      }
      ghost var before := d.edges;
      var ok := d.AddEdge(ups[k], assets[i].name);
      if !ok {
        RefusedEdge(assets, i, k, before);
        return Some(Cycle);
      }
      AcceptedEdge(assets, i, k, before);
    }
    error := None;
  }

  lemma AcceptedEdge(assets: seq<Asset>, i: nat, k: nat, edges: set<(string, string)>)
    requires i < |assets| && k < |assets[i].upstreams| && EdgesUpTo(assets, i, k, edges)
    requires (assets[i].upstreams[k], assets[i].name) !in edges && assets[i].upstreams[k] in Names(assets)
    ensures EdgesUpTo(assets, i, k + 1, edges + {(assets[i].upstreams[k], assets[i].name)})
  {
    var u, a := assets[i].upstreams, assets[i].name;
    assert u[..k + 1] == u[..k] + [u[k]];
    forall m | 0 <= m < k
      ensures u[m] != u[k]
    {
      assert u[..k][m] in u[..k];
      assert (u[m], a) in OwnEdges(a, u[..k]);
    }
  }

  /** BuildDAG's first pass. */
  method AddVertices(d: HeimdalrDag, names: seq<string>) returns (ok: bool)
    requires d.vertices == {}
    modifies d`vertices
    ensures ok <==> Distinct(names)
    ensures ok ==> forall v :: v in d.vertices <==> v in names
  {
    for i := 0 to |names|
      invariant forall v :: v in d.vertices <==> v in names[..i]
      invariant Distinct(names[..i])
    {
      assert names[..i + 1] == names[..i] + [names[i]];
      var added := d.AddVertexByID(names[i]);
      if !added {
        var j :| 0 <= j < i && names[..i][j] == names[i];
        assert names[j] == names[i];
        return false;
      }
    }
    assert names[..|names|] == names;
    return true;
  }

  /** BuildDAG. It succeeds exactly on duplicate-free, closed, acyclic input. The comment promises
      ErrCycle for cycles; a repeated upstream name is reported as ErrCycle too. */
  method BuildDAG(assets: seq<Asset>) returns (r: Result<HeimdalrDag>)
    ensures r.Ok? ==> fresh(r.value) && r.value.Valid()
                      && r.value.edges == EdgesOf(assets) && (forall v :: v in r.value.vertices <==> v in Names(assets))
    ensures r.Ok? <==> Distinct(Names(assets)) && AllUpstreamsListed(assets) && NoRepeatedUpstream(assets)
                       && Acyclic(EdgesOf(assets))
    ensures r.Err? && r.error == DuplicateVertex ==> !Distinct(Names(assets))
    ensures r.Err? && r.error == UnknownUpstream ==> !AllUpstreamsListed(assets)
    ensures r.Err? && r.error == Cycle ==> !Acyclic(EdgesOf(assets)) || !NoRepeatedUpstream(assets)
    ensures r.Err? ==> r.error != MissingUpstream
  {
    var d := new HeimdalrDag();
    var names := Names(assets);
    var unique := AddVertices(d, names);
    if !unique {
      return Err(DuplicateVertex);
    }
    for i := 0 to |assets|
      invariant d.Valid() && forall v :: v in d.vertices <==> v in names
      invariant d.edges == EdgesOf(assets[..i])
      invariant forall j | 0 <= j < i ::
        Distinct(assets[j].upstreams) && forall u | u in assets[j].upstreams :: u in names
    {
      assert assets[i] in assets && names[i] in d.vertices;
      var error := AddUpstreams(d, assets, i);
      if error.Some? {
        return Err(error.value);
      }
      assert assets[i].upstreams[..|assets[i].upstreams|] == assets[i].upstreams;
      assert EdgesOf(assets[..i + 1]) == d.edges by {
        assert assets[..i + 1] == assets[..i] + [assets[i]];
      }
    }
    assert assets[..|assets|] == assets;
    r := Ok(d);
  }

  lemma NamesDiffer(assets: seq<Asset>, i: nat, j: nat)
    requires Distinct(Names(assets)) && j < i < |assets|
    ensures assets[j].name != assets[i].name
  {
    assert Names(assets)[j] != Names(assets)[i];
  }

  /** Why AddEdge can refuse the k-th upstream of asset i. */
  lemma RefusedEdge(assets: seq<Asset>, i: nat, k: nat, edges: set<(string, string)>)
    requires Distinct(Names(assets)) && i < |assets| && k < |assets[i].upstreams|
    requires EdgesUpTo(assets, i, k, edges)
    requires var u, a := assets[i].upstreams[k], assets[i].name; u == a || (u, a) in edges || Reaches(edges, a, u)
    ensures !Acyclic(EdgesOf(assets)) || !NoRepeatedUpstream(assets)
  {
    var u, a := assets[i].upstreams[k], assets[i].name;
    var all := EdgesOf(assets);
    assert (u, a) in all && edges <= all;
    if u == a {
      assert WalkFromTo(all, a, a, [a, a]);
      assert Reaches(all, a, a);
    } else if (u, a) in edges {
      forall j | 0 <= j < i
        ensures assets[j].name != a
      {
        NamesDiffer(assets, i, j);
      }
      var m :| 0 <= m < k && assets[i].upstreams[m] == u;
      assert assets[i] in assets && !Distinct(assets[i].upstreams);
    } else {
      var p :| WalkFromTo(all, a, u, p) && |p| >= 2;
      StepWalk(all, a, u, a, p);
      assert Reaches(all, a, a);
    }
  }

  // ----- TopologicalOrder -----

  /** Each vertex once, every upstream before its dependants. */
  ghost predicate IsTopological(vertices: set<string>, edges: set<(string, string)>, order: seq<string>) {
    && Distinct(order)
    && (forall v :: v in vertices <==> v in order)
    && (forall i, j | 0 <= i < |order| && 0 <= j < |order| && (order[i], order[j]) in edges :: i < j)
  }

  /** The parents of v that Kahn's loop has not emitted yet. */
  ghost function Waiting(vertices: set<string>, edges: set<(string, string)>, done: set<string>, v: string)
    : set<string>
  {
    set u | u in vertices && (u, v) in edges && u !in done
  }

  ghost function Elements(p: seq<string>): set<string> {
    set x | x in p
  }

  /** Between two dequeues: in-degrees count the parents not yet emitted, and a vertex is
      emitted or queued exactly when that count is 0. */
  ghost predicate KahnState(vertices: set<string>, edges: set<(string, string)>, inDeg: map<string, int>,
                            order: seq<string>, queue: seq<string>) {
    && inDeg.Keys == vertices
    && Distinct(order + queue) && (forall v | v in order + queue :: v in vertices)
    && (forall v | v in vertices :: inDeg[v] == |Waiting(vertices, edges, Elements(order), v)|)
    && (forall v | v in vertices :: inDeg[v] == 0 <==> v in order + queue)
  }

  method InDegrees(vertices: set<string>, edges: set<(string, string)>) returns (inDeg: map<string, int>)
    ensures inDeg.Keys == vertices
    ensures forall v | v in vertices :: inDeg[v] == |Waiting(vertices, edges, Elements([]), v)|
  {
    inDeg := map v | v in vertices :: |set u | u in vertices && (u, v) in edges|;
    forall v | v in vertices
      ensures inDeg[v] == |Waiting(vertices, edges, Elements([]), v)|
    {
      assert Waiting(vertices, edges, Elements([]), v) == set u | u in vertices && (u, v) in edges;
    }
  }

  /** The queue starts with the roots, in any order. */
  method SeedRoots(vertices: set<string>, inDeg: map<string, int>) returns (queue: seq<string>)
    requires inDeg.Keys == vertices
    ensures Distinct(queue) && forall v :: v in queue <==> v in vertices && inDeg[v] == 0
  {
    var roots := set v | v in vertices && inDeg[v] == 0;
    queue := [];
    while roots != {}
      invariant roots <= vertices && Distinct(queue) && (forall v | v in queue :: v in vertices && v !in roots)
      invariant forall v | v in vertices :: inDeg[v] == 0 <==> v in roots || v in queue
      decreases roots
    {
      var id :| id in roots;
      roots := roots - {id};
      queue := queue + [id];
    }
  }

  /** The inner loop: each child loses one in-degree and joins the queue when that was its last.
      `emitted` is the order so far. */
  method DecrementChildren(children0: set<string>, inDeg0: map<string, int>, ghost emitted: seq<string>,
                           queue0: seq<string>)
    returns (inDeg: map<string, int>, queue: seq<string>)
    requires children0 <= inDeg0.Keys && forall v | v in children0 :: inDeg0[v] > 0
    requires Distinct(emitted + queue0) && forall v | v in emitted + queue0 :: v in inDeg0
    requires forall v | v in inDeg0 :: inDeg0[v] == 0 <==> v in emitted + queue0
    ensures inDeg == map v | v in inDeg0 :: if v in children0 then inDeg0[v] - 1 else inDeg0[v]
    ensures Distinct(emitted + queue) && forall v | v in emitted + queue :: v in inDeg
    ensures forall v | v in inDeg :: inDeg[v] == 0 <==> v in emitted + queue
  {
    inDeg, queue := inDeg0, queue0;
    ghost var listed := emitted + queue0;
    var children := children0;
    while children != {}
      invariant children <= children0
      invariant inDeg == map v | v in inDeg0 :: if v in children0 - children then inDeg0[v] - 1 else inDeg0[v]
      invariant listed == emitted + queue && Distinct(listed) && forall v | v in listed :: v in inDeg
      invariant forall v | v in inDeg :: inDeg[v] == 0 <==> v in listed
      decreases children
    {
      var cid :| cid in children;
      inDeg := inDeg[cid := inDeg[cid] - 1];
      children := children - {cid};
      if inDeg[cid] == 0 {
        queue := queue + [cid];
        listed := listed + [cid];
      }
    }
  }

  /** Emitting n after `before` and decrementing its children restores Kahn's invariant. */
  method ReleaseChildren(vertices: set<string>, edges: set<(string, string)>, before: seq<string>, n: string,
                         inDeg0: map<string, int>, queue0: seq<string>)
    returns (inDeg: map<string, int>, queue: seq<string>)
    requires forall e | e in edges :: e.0 in vertices && e.1 in vertices
    requires KahnState(vertices, edges, inDeg0, before, [n] + queue0)
    requires forall v | (n, v) !in edges ::
               Waiting(vertices, edges, Elements(before + [n]), v) == Waiting(vertices, edges, Elements(before), v)
    ensures KahnState(vertices, edges, inDeg, before + [n], queue)
  {
    assert before + ([n] + queue0) == before + [n] + queue0;
    FreshInOrder(before, n, queue0);
    var children := set v | v in vertices && (n, v) in edges;
    forall v | v in children
      ensures |Waiting(vertices, edges, Elements(before + [n]), v)| == inDeg0[v] - 1
    {
      DropParent(vertices, edges, before, n, v);
    }
    inDeg, queue := DecrementChildren(children, inDeg0, before + [n], queue0);
  }

  lemma FreshInOrder(before: seq<string>, n: string, rest: seq<string>)
    requires Distinct(before + ([n] + rest))
    ensures n !in before
  {
    var all := before + ([n] + rest);
    forall k | 0 <= k < |before|
      ensures before[k] != n
    {
      assert all[k] != all[|before|];
    }
  }

  /** One pass of Kahn's loop. */
  method EmitHead(vertices: set<string>, edges: set<(string, string)>, before: seq<string>,
                  inDeg0: map<string, int>, queue0: seq<string>)
    returns (inDeg: map<string, int>, queue: seq<string>)
    requires forall e | e in edges :: e.0 in vertices && e.1 in vertices
    requires |queue0| > 0 && KahnState(vertices, edges, inDeg0, before, queue0) && Emitted(edges, before)
    ensures KahnState(vertices, edges, inDeg, before + [queue0[0]], queue) && Emitted(edges, before + [queue0[0]])
    ensures |before| < |vertices|
  {
    var n := queue0[0];
    assert [n] + queue0[1..] == queue0;
    DistinctBound(before + queue0, vertices);
    EmitNext(vertices, edges, before, n);
    inDeg, queue := ReleaseChildren(vertices, edges, before, n, inDeg0, queue0[1..]);
  }

  /** With the queue empty, either every vertex is listed in order or what is left over holds a cycle. */
  lemma QueueDry(vertices: set<string>, edges: set<(string, string)>, inDeg: map<string, int>, order: seq<string>)
    requires forall e | e in edges :: e.0 in vertices && e.1 in vertices
    requires KahnState(vertices, edges, inDeg, order, []) && Emitted(edges, order)
    ensures if |order| == |vertices| then IsTopological(vertices, edges, order) && Acyclic(edges) else !Acyclic(edges)
  {
    assert order + [] == order;
    if |order| != |vertices| {
      LeftoverCycle(vertices, edges, order);
    } else {
      DistinctCovers(order, vertices);
      TopologicalIsAcyclic(vertices, edges, order);
    }
  }

  /** Kahn's loop. Map iteration order is arbitrary, so roots and children are picked
      in any order; `n` is the vertex count the graph was built with. */
  method TopologicalOrder(vertices: set<string>, edges: set<(string, string)>) returns (r: Result<seq<string>>)
    requires forall e | e in edges :: e.0 in vertices && e.1 in vertices
    ensures r.Ok? <==> Acyclic(edges)
    ensures r.Ok? ==> IsTopological(vertices, edges, r.value)
    ensures r.Err? ==> r.error == Cycle
  {
    var inDeg := InDegrees(vertices, edges);
    var queue := SeedRoots(vertices, inDeg);
    var order: seq<string> := [];
    assert order + queue == queue;
    while |queue| > 0
      invariant KahnState(vertices, edges, inDeg, order, queue) && Emitted(edges, order)
      decreases |vertices| - |order|
    {
      var n := queue[0];
      inDeg, queue := EmitHead(vertices, edges, order, inDeg, queue);
      order := order + [n];
    }
    assert queue == [];
    QueueDry(vertices, edges, inDeg, order);
    if |order| != |vertices| {
      return Err(Cycle);
    }
    r := Ok(order);
  }

  /** Every parent of an emitted vertex was emitted earlier. */
  ghost predicate Emitted(edges: set<(string, string)>, order: seq<string>) {
    forall j, u | 0 <= j < |order| && (u, order[j]) in edges :: u in order[..j]
  }

  /** n may be emitted: nothing it waits for is left. */
  lemma EmitNext(vertices: set<string>, edges: set<(string, string)>, before: seq<string>, n: string)
    requires forall e | e in edges :: e.0 in vertices && e.1 in vertices
    requires Emitted(edges, before) && |Waiting(vertices, edges, Elements(before), n)| == 0
    ensures Emitted(edges, before + [n])
    ensures forall v | (n, v) !in edges ::
              Waiting(vertices, edges, Elements(before + [n]), v) == Waiting(vertices, edges, Elements(before), v)
  {
    var order := before + [n];
    forall j, u | 0 <= j < |order| && (u, order[j]) in edges
      ensures u in order[..j]
    {
      assert order[..j] == before[..j];
      if j == |before| {
        assert u !in Waiting(vertices, edges, Elements(before), n);
        assert before[..j] == before;
      }
    }
  }

  lemma DropParent(vertices: set<string>, edges: set<(string, string)>, before: seq<string>, n: string, v: string)
    requires n in vertices && n !in before && (n, v) in edges
    ensures |Waiting(vertices, edges, Elements(before + [n]), v)| == |Waiting(vertices, edges, Elements(before), v)| - 1
  {
    assert Waiting(vertices, edges, Elements(before + [n]), v) == Waiting(vertices, edges, Elements(before), v) - {n};
  }

  /** When the queue runs dry early, every vertex left over still waits for another one: a cycle. */
  lemma LeftoverCycle(vertices: set<string>, edges: set<(string, string)>, order: seq<string>)
    requires forall e | e in edges :: e.0 in vertices && e.1 in vertices
    requires Distinct(order) && (forall v | v in order :: v in vertices) && |order| != |vertices|
    requires forall v | v in vertices :: |Waiting(vertices, edges, Elements(order), v)| == 0 <==> v in order
    ensures !Acyclic(edges)
  {
    var left := set v | v in vertices && v !in order;
    assert left != {} by {
      if left == {} {
        forall v | v in vertices
          ensures v in order
        {
          assert v !in left;
        }
        DistinctBound(order, vertices);
        SetBound(vertices, order);
      }
    }
    forall v | v in left
      ensures HasPredecessorIn(edges, left, v)
    {
      var u :| u in Waiting(vertices, edges, Elements(order), v);
      assert u in left;
    }
    NoSourceMeansCycle(edges, left);
  }

  lemma {:induction false} SetBound(s: set<string>, p: seq<string>)
    requires forall x | x in s :: x in p
    ensures |s| <= |p|
    decreases |p|
  {
    if |p| == 0 {
      assert s == {};
    } else {
      SetBound(s - {p[0]}, p[1..]);
    }
  }

  /** Positions only grow along a walk. */
  lemma {:induction false} WalkMovesForward(vertices: set<string>, edges: set<(string, string)>, order: seq<string>,
                                            p: seq<string>, i: nat, j: nat)
    requires IsTopological(vertices, edges, order) && IsWalk(edges, p)
    requires forall e | e in edges :: e.0 in vertices && e.1 in vertices
    requires i < |order| && j < |order| && order[i] == p[0] && order[j] == p[|p| - 1]
    ensures i + |p| - 1 <= j
    decreases |p|
  {
    if |p| > 1 {
      assert (p[0], p[1]) in edges;
      var k :| 0 <= k < |order| && order[k] == p[1];
      assert IsWalk(edges, p[1..]) by {
        forall m {:trigger p[1..][m]} | 0 <= m < |p| - 2
          ensures (p[1..][m], p[1..][m + 1]) in edges
        {
          assert (p[m + 1], p[m + 2]) in edges;
        }
      }
      WalkMovesForward(vertices, edges, order, p[1..], k, j);
    }
  }

  lemma TopologicalIsAcyclic(vertices: set<string>, edges: set<(string, string)>, order: seq<string>)
    requires IsTopological(vertices, edges, order)
    requires forall e | e in edges :: e.0 in vertices && e.1 in vertices
    ensures Acyclic(edges)
  {
    forall v
      ensures !Reaches(edges, v, v)
    {
      if p :| WalkFromTo(edges, v, v, p) && |p| >= 2 {
        assert (p[0], p[1]) in edges;
        var i :| 0 <= i < |order| && order[i] == v;
        WalkMovesForward(vertices, edges, order, p, i, i);
      }
    }
  }

  /** In an order of a target's closure the target comes last. */
  lemma TargetComesLast(vertices: set<string>, edges: set<(string, string)>, order: seq<string>, target: string)
    requires IsTopological(vertices, edges, order) && target in vertices
    requires forall e | e in edges :: e.0 in vertices && e.1 in vertices
    requires forall v | v in vertices :: ReachesOrIs(edges, v, target)
    ensures order[|order| - 1] == target
  {
    var j :| 0 <= j < |order| && order[j] == target;
    var last := order[|order| - 1];
    assert last in order && last in vertices;
    var p :| WalkFromTo(edges, last, target, p);
    WalkMovesForward(vertices, edges, order, p, |order| - 1, j);
  }

  // ----- The executor's planning phase -----

  /** The edges of the target's upstream closure. */
  ghost function ClosureEdges(reg: Registry, target: string): set<(string, string)> {
    set a, u | a in reg && u in reg[a] && Needs(reg, a, target) :: (u, a)
  }

  ghost predicate Plannable(reg: Registry, target: string) {
    && (forall v | Needs(reg, v, target) :: UpstreamsKnown(reg, v) && Distinct(reg[v]))
    && Acyclic(ClosureEdges(reg, target))
  }

  /** Executor.Run lines 178-189: an order exists exactly when the closure is registered, acyclic and
      repeats no upstream; it lists the closure once each, upstreams first and the target last. */
  method PlanRun(reg: Registry, target: string) returns (r: Result<seq<string>>)
    requires target in reg
    ensures r.Ok? <==> Plannable(reg, target)
    ensures r.Ok? ==> Distinct(r.value) && forall v :: v in r.value <==> Needs(reg, v, target)
    ensures r.Ok? ==> forall v | v in r.value :: v in reg
    ensures r.Ok? ==> forall i, j | 0 <= i < |r.value| && 0 <= j < |r.value| && r.value[i] in reg[r.value[j]] :: i < j
    ensures r.Ok? ==> r.value != [] && r.value[|r.value| - 1] == target
  {
    var collected := CollectSubgraph(reg, target);
    if collected.Err? {
      return Err(collected.error);
    }
    var assets := collected.value;
    CollectedEdges(reg, target, assets);
    var built := BuildDAG(assets);
    if built.Err? {
      return Err(built.error);
    }
    r := TopologicalOrder(built.value.vertices, built.value.edges);
    NeedsSelf(reg, target);
    forall v | Needs(reg, v, target)
      ensures ReachesOrIs(ClosureEdges(reg, target), v, target)
    {
      var p :| WalkFromTo(RegistryEdges(reg), v, target, p);
      WalkStaysInClosure(reg, target, v, p);
    }
    TargetComesLast(built.value.vertices, built.value.edges, r.value, target);
  }

  lemma CollectedEdges(reg: Registry, target: string, assets: seq<Asset>)
    requires forall x | x in assets :: x.name in reg && x.upstreams == reg[x.name]
    requires forall v :: v in Names(assets) <==> Needs(reg, v, target)
    requires forall v | Needs(reg, v, target) :: UpstreamsKnown(reg, v)
    ensures EdgesOf(assets) == ClosureEdges(reg, target)
    ensures AllUpstreamsListed(assets)
    ensures NoRepeatedUpstream(assets) <==> forall v | Needs(reg, v, target) :: Distinct(reg[v])
  {
    forall v | Needs(reg, v, target)
      ensures exists i :: 0 <= i < |assets| && assets[i].name == v && assets[i].upstreams == reg[v]
                          && assets[i] in assets
    {
      var i :| 0 <= i < |assets| && Names(assets)[i] == v;
      assert assets[i] in assets;
    }
    forall x, u | x in assets && u in x.upstreams
      ensures u in Names(assets)
    {
      var i :| 0 <= i < |assets| && assets[i] == x;
      assert Names(assets)[i] == x.name;
      assert WalkFromTo(RegistryEdges(reg), u, x.name, [u, x.name]);
      NeedsThrough(reg, u, x.name, target);
    }
    forall e | e in EdgesOf(assets)
      ensures e in ClosureEdges(reg, target)
    {
      var i :| 0 <= i < |assets| && e.0 in assets[i].upstreams && e.1 == assets[i].name;
      assert assets[i] in assets && Names(assets)[i] == e.1;
    }
    forall x | x in assets
      ensures Needs(reg, x.name, target)
    {
      var i :| 0 <= i < |assets| && assets[i] == x;
      assert Names(assets)[i] == x.name;
    }
  }

  lemma NeedsThrough(reg: Registry, v: string, u: string, a: string)
    requires Needs(reg, v, u) && Needs(reg, u, a)
    ensures Needs(reg, v, a)
  {
    var p :| WalkFromTo(RegistryEdges(reg), v, u, p);
    var q :| WalkFromTo(RegistryEdges(reg), u, a, q);
    JoinWalks(RegistryEdges(reg), v, u, a, p, q);
  }

  lemma WalkStaysInClosure(reg: Registry, target: string, v: string, p: seq<string>)
    requires WalkFromTo(RegistryEdges(reg), v, target, p)
    ensures WalkFromTo(ClosureEdges(reg, target), v, target, p)
  {
    forall i {:trigger p[i]} | 0 <= i < |p| - 1
      ensures (p[i], p[i + 1]) in ClosureEdges(reg, target)
    {
      assert (p[i], p[i + 1]) in RegistryEdges(reg);
      assert WalkFromTo(RegistryEdges(reg), p[i + 1], target, p[i + 1..]);
      assert Needs(reg, p[i + 1], target);
    }
  }
}
