// di-lib: the search that explains why configurations are still waiting.
//
// The checker keeps no visited set. Its only memory is the stack of
// "config::resource" names, so both termination and completeness rest on that
// stack never holding a name twice before a cycle is reported.
module DependencyCycles {
  import opened Sequences

  // A resource as required by one configuration.
  datatype Node = Node(config: string, resource: string)

  // Who requires what, and who provides it.
  datatype Graph = Graph(resources: map<string, seq<string>>, source: map<string, string>)
  {
    predicate IsNode(n: Node) {
      n.config in resources && n.resource in resources[n.config]
    }

    function Nodes(): (s: set<Node>)
      ensures forall n :: n in s <==> IsNode(n)
    {
      set c, r | c in resources && r in resources[c] :: Node(c, r)
    }

    // The resource of a is provided by the configuration that requires b.
    predicate Edge(a: Node, b: Node) {
      IsNode(a) && IsNode(b) && a.resource in source && source[a.resource] == b.config
    }

    ghost predicate IsWalk(w: seq<Node>) {
      && (forall n :: n in w ==> IsNode(n))
      && (forall i, j :: 0 <= i && j == i + 1 && j < |w| ==> Edge(w[i], w[j]))
    }

    ghost predicate IsClosedWalk(w: seq<Node>) {
      |w| >= 2 && IsWalk(w) && w[0] == w[|w| - 1]
    }

    ghost predicate HasCycle() {
      exists w: seq<Node> :: IsClosedWalk(w)
    }

    // A cycle in its smallest form: nothing repeats but the two ends.
    ghost predicate IsMinimalCycle(w: seq<Node>) {
      IsClosedWalk(w) && Distinct(w[1..])
    }

    // Every walk through the resources of configName, appended to path, stays repetition-free.
    ghost predicate ExhaustedConfig(path: seq<Node>, configName: string) {
      forall w: seq<Node> {:trigger IsWalk(w)} ::
        IsWalk(w) && |w| > 0 && w[0].config == configName ==> Distinct(path + w)
    }

    ghost predicate ExhaustedNode(path: seq<Node>, n: Node) {
      forall w: seq<Node> {:trigger IsWalk(w)} :: IsWalk(w) && |w| > 0 && w[0] == n ==> Distinct(path + w)
    }

    lemma WalkSlice(w: seq<Node>, lo: nat, hi: nat)
      requires IsWalk(w) && lo <= hi <= |w|
      ensures IsWalk(w[lo..hi])
    {
      assert forall k :: 0 <= k < hi - lo ==> w[lo..hi][k] == w[lo + k];
    }

    ghost predicate LeadsTo(path: seq<Node>, configName: string) {
      path == [] || (path[|path| - 1].resource in source && source[path[|path| - 1].resource] == configName)
    }
  }

  predicate IsIdentifier(name: string) {
    ':' !in name
  }

  function CompoundName(n: Node): string {
    n.config + "::" + n.resource
  }

  lemma FirstColon(n: Node)
    requires IsIdentifier(n.config)
    ensures var s := CompoundName(n);
            s[|n.config|] == ':' && forall k :: 0 <= k < |n.config| ==> s[k] != ':'
  {
    assert forall k :: 0 <= k < |n.config| ==> CompoundName(n)[k] == n.config[k];
  }

  // Configuration names are C++ identifiers, so the display name identifies the pair.
  lemma CompoundNameInjective(a: Node, b: Node)
    requires IsIdentifier(a.config) && IsIdentifier(b.config)
    requires CompoundName(a) == CompoundName(b)
    ensures a == b
  {
    var s, t := CompoundName(a), CompoundName(b);
    FirstColon(a);
    FirstColon(b);
    assert a.config == s[..|a.config|] == t[..|b.config|] == b.config;
    assert a.resource == s[|a.config| + 2..] == t[|b.config| + 2..] == b.resource;
  }

  // Without that restriction two different pairs share a display name.
  lemma CompoundNameClash()
    ensures CompoundName(Node("a::b", "c")) == CompoundName(Node("a", "b::c"))
  {
    assert CompoundName(Node("a::b", "c")) == "a::b::c";
    assert CompoundName(Node("a", "b::c")) == "a::b::c";
  }

  // The last entry, and only that one, occurs before.
  ghost predicate RepeatsAtEnd(path: seq<Node>) {
    |path| >= 2 && Distinct(path[..|path| - 1]) && path[|path| - 1] in path[..|path| - 1]
  }

  // The display names, in order, of the pairs on the stack.
  ghost predicate Named(names: seq<string>, path: seq<Node>) {
    |names| == |path| && forall k :: 0 <= k < |path| ==> names[k] == CompoundName(path[k])
  }

  lemma NamedPop(names: seq<string>, path: seq<Node>, n: Node)
    requires Named(names, path + [n])
    ensures Named(names[..|names| - 1], path)
  {
    assert forall k :: 0 <= k < |path| ==> (path + [n])[k] == path[k];
  }

  lemma NamedDrop(names: seq<string>, path: seq<Node>, k: nat)
    requires Named(names, path) && k <= |path|
    ensures Named(names[k..], path[k..])
  {
  }

  lemma NameOnStack(g: Graph, names: seq<string>, path: seq<Node>, n: Node)
    requires Named(names, path) && g.IsWalk(path) && g.IsNode(n)
    requires forall c :: c in g.resources ==> IsIdentifier(c)
    ensures CompoundName(n) in names <==> n in path
  {
    if CompoundName(n) in names {
      var k :| 0 <= k < |path| && names[k] == CompoundName(n);
      assert g.IsNode(path[k]);
      CompoundNameInjective(path[k], n);
    }
    if n in path {
      var k :| 0 <= k < |path| && path[k] == n;
      assert names[k] == CompoundName(n);
    }
  }

  // Following one more resource: what the recursive search excluded, seen from the node itself.
  lemma ExhaustedStep(g: Graph, path: seq<Node>, n: Node)
    requires Distinct(path + [n])
    requires n.resource in g.source ==> g.ExhaustedConfig(path + [n], g.source[n.resource])
    ensures g.ExhaustedNode(path, n)
  {
    forall w: seq<Node> {:trigger g.IsWalk(w)} | g.IsWalk(w) && |w| > 0 && w[0] == n
      ensures Distinct(path + w)
    {
      if |w| == 1 {
        assert w == [n];
      } else {
        var tail := w[1..|w|];
        assert g.Edge(w[0], w[1]);
        g.WalkSlice(w, 1, |w|);
        assert path + w == path + [n] + tail;
      }
    }
  }

  lemma ExhaustedMeansAcyclic(g: Graph)
    requires forall c :: c in g.resources ==> g.ExhaustedConfig([], c)
    ensures !g.HasCycle()
  {
    forall w: seq<Node> {:trigger g.IsWalk(w)} | g.IsWalk(w) && |w| > 0
      ensures Distinct(w)
    {
      assert g.IsNode(w[0]);
      assert [] + w == w;
    }
  }

  class CircularDependencyChecker {
    // Per bean, the configuration last added with it
    var beanSource: map<string, string>
    // Per configuration, what it requires
    var configResources: map<string, seq<string>>
    // The stack of names, and the pairs those names stand for
    var cycle: seq<string>
    ghost var path: seq<Node>

    ghost function AsGraph(): Graph
      reads this
    {
      Graph(configResources, beanSource)
    }

    ghost predicate Valid()
      reads this
    {
      && Named(cycle, path)
      && (forall c :: c in configResources ==> IsIdentifier(c))
      && AsGraph().IsWalk(path)
    }

    constructor ()
      ensures Valid() && path == []
      ensures AsGraph() == Graph(map[], map[])
    {
      beanSource, configResources := map[], map[];
      cycle, path := [], [];
    }

    method Add(name: string, resources: seq<string>, beans: seq<string>)
      requires Valid() && path == [] && IsIdentifier(name)
      modifies this`beanSource, this`configResources
      ensures Valid() && path == []
      ensures AsGraph() == Added(old(AsGraph()), name, resources, beans)
    {
      configResources := configResources[name := resources];
      var i := 0;
      while i < |beans|
        invariant 0 <= i <= |beans|
        invariant configResources == old(configResources)[name := resources]
        invariant beanSource == WithSource(old(beanSource), name, beans[..i])
      {
        assert beans[..i + 1][..i] == beans[..i];
        beanSource := beanSource[beans[i] := name];
        i := i + 1;
      }
      assert beans[..i] == beans;
    }

    // True exactly when the graph has a cycle; the stack is then that cycle, minimized.
    method CheckForCycle() returns (found: bool)
      requires Valid() && path == []
      modifies this`cycle, this`path
      ensures Valid()
      ensures found <==> AsGraph().HasCycle()
      ensures found ==> AsGraph().IsMinimalCycle(path)
      ensures !found ==> path == []
    {
      // The source iterates the map in key order; any order is allowed here.
      var pending := configResources.Keys;
      while pending != {}
        invariant Valid() && path == []
        invariant pending <= configResources.Keys
        invariant forall c :: c in configResources.Keys - pending ==> AsGraph().ExhaustedConfig([], c)
        decreases |pending|
      {
        var c :| c in pending;
        found := CheckAllResources(c);
        if found {
          MinimizeCycle();
          assert AsGraph().IsClosedWalk(path);
          return true;
        }
        pending := pending - {c};
      }
      ExhaustedMeansAcyclic(AsGraph());
      found := false;
    }

    // Drop everything before the first occurrence of the last name.
    method MinimizeCycle()
      requires Valid() && RepeatsAtEnd(path)
      modifies this`cycle, this`path
      ensures Valid() && AsGraph().IsMinimalCycle(path)
      ensures exists k :: 0 <= k < |old(path)| && path == old(path)[k..]
    {
      ghost var first: nat :| first < |path| - 1 && path[first] == path[|path| - 1];
      assert cycle[first] == cycle[|cycle| - 1];
      var start := 0;
      while cycle[start] != cycle[|cycle| - 1]
        invariant 0 <= start <= first
        decreases first - start
      {
        start := start + 1;
      }
      MinimalFrom(AsGraph(), path, start);
      NamedDrop(cycle, path, start);
      cycle, path := cycle[start..], path[start..];
    }

    method CheckAllResources(configName: string) returns (found: bool)
      requires Valid() && Distinct(path) && AsGraph().LeadsTo(path, configName)
      modifies this`cycle, this`path
      ensures Valid()
      ensures !found ==> path == old(path) && AsGraph().ExhaustedConfig(path, configName)
      ensures found ==> RepeatsAtEnd(path) && old(path) <= path
      decreases |AsGraph().Nodes()| - |path|, 1
    {
      if configName !in configResources {
        assert forall w: seq<Node> {:trigger AsGraph().IsWalk(w)} ::
            AsGraph().IsWalk(w) && |w| > 0 ==> AsGraph().IsNode(w[0]);
        return false;
      }
      var resources := configResources[configName];
      var i := 0;
      while i < |resources|
        invariant 0 <= i <= |resources|
        invariant Valid() && path == old(path)
        invariant forall k :: 0 <= k < i ==> AsGraph().ExhaustedNode(path, Node(configName, resources[k]))
      {
        found := FollowResource(configName, resources[i]);
        if found {
          return true;
        }
        i := i + 1;
      }
      assert AsGraph().ExhaustedConfig(path, configName) by {
        forall w: seq<Node> {:trigger AsGraph().IsWalk(w)} | AsGraph().IsWalk(w) && |w| > 0 && w[0].config == configName
          ensures Distinct(path + w)
        {
          assert AsGraph().IsNode(w[0]);
          var k :| 0 <= k < |resources| && resources[k] == w[0].resource;
          assert w[0] == Node(configName, resources[k]);
        }
      }
      return false;
    }

    method FollowResource(configName: string, resourceName: string) returns (found: bool)
      requires Valid() && Distinct(path) && AsGraph().LeadsTo(path, configName)
      requires AsGraph().IsNode(Node(configName, resourceName))
      modifies this`cycle, this`path
      ensures Valid()
      ensures !found ==> path == old(path) && AsGraph().ExhaustedNode(path, Node(configName, resourceName))
      ensures found ==> RepeatsAtEnd(path) && old(path) <= path
      decreases |AsGraph().Nodes()| - |path|, 0
    {
      var compoundName := CompoundName(Node(configName, resourceName));
      var hasCycle := compoundName in cycle;
      ghost var n, before := Node(configName, resourceName), path;
      NameOnStack(AsGraph(), cycle, path, n);
      cycle, path := cycle + [compoundName], path + [n];
      AppendWalk(AsGraph(), before, n);
      if hasCycle {
        assert path[..|path| - 1] == before;
        return true;
      }
      DistinctAppend(before, n);
      DistinctBound(path, AsGraph().Nodes());
      if resourceName in beanSource {
        found := CheckAllResources(beanSource[resourceName]);
        if found {
          return true;
        }
      }
      ExhaustedStep(AsGraph(), before, n);
      NamedPop(cycle, before, n);
      cycle, path := cycle[..|cycle| - 1], before;
      return false;
    }
  }

  lemma AppendWalk(g: Graph, path: seq<Node>, n: Node)
    requires g.IsWalk(path) && g.IsNode(n) && g.LeadsTo(path, n.config)
    ensures g.IsWalk(path + [n])
  {
  }

  // Cutting a stack at the first entry named like its last one leaves a minimal cycle.
  lemma MinimalFrom(g: Graph, p: seq<Node>, start: nat)
    requires g.IsWalk(p) && RepeatsAtEnd(p)
    requires forall c :: c in g.resources ==> IsIdentifier(c)
    requires start < |p| - 1 && CompoundName(p[start]) == CompoundName(p[|p| - 1])
    ensures g.IsMinimalCycle(p[start..])
  {
    assert g.IsNode(p[start]) && g.IsNode(p[|p| - 1]);
    CompoundNameInjective(p[start], p[|p| - 1]);
    g.WalkSlice(p, start, |p|);
    assert p[start..] == p[start..|p|];
    TailDistinct(p, start);
    assert p[start..][1..] == p[start + 1..];
  }

  lemma TailDistinct(p: seq<Node>, start: nat)
    requires |p| >= 2 && Distinct(p[..|p| - 1])
    requires start < |p| - 1 && p[start] == p[|p| - 1]
    ensures Distinct(p[start + 1..])
  {
    var head := p[..|p| - 1];
    var tail := p[start + 1..];
    forall i, j | 0 <= i < j < |tail|
      ensures tail[i] != tail[j]
    {
      assert head[start + 1 + i] == tail[i];
      assert j < |tail| - 1 ==> head[start + 1 + j] == tail[j];
      assert head[start] == p[start];
    }
  }

  function WithSource(source: map<string, string>, name: string, beans: seq<string>): map<string, string> {
    if beans == [] then source
    else WithSource(source, name, beans[..|beans| - 1])[beans[|beans| - 1] := name]
  }

  function Added(g: Graph, name: string, resources: seq<string>, beans: seq<string>): Graph {
    Graph(g.resources[name := resources], WithSource(g.source, name, beans))
  }
}
