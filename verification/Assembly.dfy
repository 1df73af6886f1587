// di-lib: what the outcome of an assembly says about the registered configurations.
module Assembly {
  import opened Sequences
  import opened Configurations
  import opened DependencyCycles
  import opened Contexts

  ghost predicate UniqueNames(all: multiset<Config>) {
    forall c, d :: c in all && d in all && c.name == d.name ==> c == d
  }

  // Every resource is a bean already, or some configuration declares it.
  ghost predicate AllProvided(all: multiset<Config>, before: set<string>) {
    forall c, r :: c in all && r in c.resources && r !in before ==> DeclaredBy(all, r)
  }

  ghost predicate DeclaredBy(all: multiset<Config>, bean: string) {
    exists d :: d in all && bean in d.beans
  }

  // The checker's maps, read as facts about the configurations they were filled from.
  ghost predicate Describes(g: Graph, cs: seq<Config>, repo: set<string>) {
    && (forall c :: c in cs ==> c.name in g.resources)
    && (forall n :: n in g.resources ==>
          exists c :: c in cs && c.name == n && g.resources[n] == Missing(c.resources, repo))
    && (forall b :: b in g.source ==> exists c :: c in cs && c.name == g.source[b] && b in c.beans)
    && (forall c :: c in cs ==> forall b :: b in c.beans ==> b in g.source)
  }

  lemma {:induction false} WithSourceIs(source: map<string, string>, name: string, beans: seq<string>)
    ensures var m := WithSource(source, name, beans);
            && m.Keys == source.Keys + ToSet(beans)
            && forall b :: b in m ==> m[b] == if b in beans then name else source[b]
  {
    if beans != [] {
      var n := |beans| - 1;
      WithSourceIs(source, name, beans[..n]);
      assert beans == beans[..n] + [beans[n]];
    }
  }

  lemma {:induction false} GraphDescribes(cs: seq<Config>, repo: set<string>)
    ensures Describes(DependencyGraph(cs, repo), cs, repo)
  {
    if cs != [] {
      var n := |cs| - 1;
      var init, c := cs[..n], cs[n];
      var g, g' := DependencyGraph(init, repo), DependencyGraph(cs, repo);
      GraphDescribes(init, repo);
      WithSourceIs(g.source, c.name, c.beans);
      assert cs == init + [c] && c in cs;
      forall m | m in g'.resources
        ensures exists d :: d in cs && d.name == m && g'.resources[m] == Missing(d.resources, repo)
      {
        if m != c.name {
          var d :| d in init && d.name == m && g.resources[m] == Missing(d.resources, repo);
          assert d in cs;
        }
      }
      forall b | b in g'.source
        ensures exists d :: d in cs && d.name == g'.source[b] && b in d.beans
      {
        if b !in c.beans {
          var d :| d in init && d.name == g.source[b] && b in d.beans;
          assert d in cs;
        }
      }
    }
  }

  ghost predicate HasSuccessor(g: Graph, n: Node) {
    exists m :: g.Edge(n, m)
  }

  // A finite graph in which every node has a successor contains a cycle.
  lemma SuccessorsMakeCycle(g: Graph, start: Node)
    requires g.IsNode(start)
    requires forall n {:trigger HasSuccessor(g, n)} :: g.IsNode(n) ==> HasSuccessor(g, n)
    ensures g.HasCycle()
  {
    var w := LongWalk(g, start, |g.Nodes()| + 1);
    if Distinct(w) {
      DistinctBound(w, g.Nodes());
    }
    var i, j := FirstRepeat(w);
    g.WalkSlice(w, i, j + 1);
    var loop := w[i..j + 1];
    assert loop[0] == w[i] && loop[|loop| - 1] == w[j];
    assert g.IsClosedWalk(loop);
  }

  lemma {:induction false} LongWalk(g: Graph, start: Node, len: nat) returns (w: seq<Node>)
    requires g.IsNode(start) && len > 0
    requires forall n {:trigger HasSuccessor(g, n)} :: g.IsNode(n) ==> HasSuccessor(g, n)
    ensures g.IsWalk(w) && |w| == len
  {
    if len == 1 {
      w := [start];
    } else {
      var init := LongWalk(g, start, len - 1);
      var last := init[|init| - 1];
      assert last in init && HasSuccessor(g, last);
      var next :| g.Edge(last, next);
      AppendWalk(g, init, next);
      w := init + [next];
    }
  }

  // A waiting configuration lacks r, and r is neither a bean nor declared by anyone.
  ghost predicate Unprovided(all: multiset<Config>, waiting: seq<Config>, repo: set<string>, r: string) {
    !DeclaredBy(all, r) && exists c :: c in waiting && r in Missing(c.resources, repo)
  }

  // When the sweeps leave something waiting and there is no cycle, some resource
  // is missing from the whole context.
  lemma InitializationFailureMeansMissingBean(all: multiset<Config>, before: set<string>, loaded: seq<Config>,
                                              waiting: seq<Config>, repo: set<string>)
    requires Settled(all, before, loaded, waiting, repo) && waiting != []
    requires !DependencyGraph(waiting, repo).HasCycle()
    ensures exists r :: Unprovided(all, waiting, repo, r)
  {
    if forall r :: !Unprovided(all, waiting, repo, r) {
      var g := DependencyGraph(waiting, repo);
      GraphDescribes(waiting, repo);
      forall n {:trigger HasSuccessor(g, n)} | g.IsNode(n)
        ensures HasSuccessor(g, n)
      {
        var c :| c in waiting && c.name == n.config && g.resources[n.config] == Missing(c.resources, repo);
        assert DeclaredBy(all, n.resource) by {
          assert !Unprovided(all, waiting, repo, n.resource);
        }
        MissingIff(c.resources, repo);
        assert n.resource !in repo;
        WaitingSource(all, before, loaded, waiting, repo, n.resource);
        var m := FirstNode(waiting, repo, g.source[n.resource]);
        assert g.Edge(n, m);
      }
      assert waiting[0] in waiting;
      var start := FirstNode(waiting, repo, waiting[0].name);
      SuccessorsMakeCycle(g, start);
    }
  }

  // Every configuration in the graph of the waiting ones has at least one node.
  lemma FirstNode(waiting: seq<Config>, repo: set<string>, name: string) returns (n: Node)
    requires forall c :: c in waiting ==> Missing(c.resources, repo) != []
    requires exists c :: c in waiting && c.name == name
    ensures n.config == name && DependencyGraph(waiting, repo).IsNode(n)
  {
    var g := DependencyGraph(waiting, repo);
    GraphDescribes(waiting, repo);
    assert name in g.resources;
    n := Node(name, g.resources[name][0]);
  }

  // A declared bean that is not registered belongs to a waiting configuration.
  lemma WaitingSource(all: multiset<Config>, before: set<string>, loaded: seq<Config>, waiting: seq<Config>,
                      repo: set<string>, bean: string)
    requires Settled(all, before, loaded, waiting, repo)
    requires DeclaredBy(all, bean) && bean !in repo
    ensures var g := DependencyGraph(waiting, repo);
            bean in g.source && exists c :: c in waiting && c.name == g.source[bean]
  {
    GraphDescribes(waiting, repo);
    ProvidedIs(loaded);
    var d :| d in all && bean in d.beans;
    assert d in multiset(loaded) + multiset(waiting);
    assert d !in loaded;
  }

  // With fresh bean names and distinct configuration names, nothing is left waiting
  // exactly when every resource has a provider and the dependency graph is acyclic.
  lemma AssembledIff(cs: seq<Config>, before: set<string>, loaded: seq<Config>, waiting: seq<Config>,
                     repo: set<string>)
    requires Settled(multiset(cs), before, loaded, waiting, repo)
    requires FreshBeans(multiset(cs), before) && UniqueNames(multiset(cs))
    ensures waiting == [] <==> AllProvided(multiset(cs), before) && !DependencyGraph(cs, before).HasCycle()
  {
    var all := multiset(cs);
    if waiting == [] {
      LoadedAreProvided(all, before, loaded, waiting, repo);
      AssembledIsAcyclic(cs, before, loaded, repo);
    } else if AllProvided(all, before) {
      if !DependencyGraph(waiting, repo).HasCycle() {
        InitializationFailureMeansMissingBean(all, before, loaded, waiting, repo);
        var r :| Unprovided(all, waiting, repo, r);
        UnprovidedRefutes(all, before, loaded, waiting, repo, r);
      }
      WaitingCycleIsDependencyCycle(cs, before, loaded, waiting, repo);
    }
  }

  lemma UnprovidedRefutes(all: multiset<Config>, before: set<string>, loaded: seq<Config>, waiting: seq<Config>,
                          repo: set<string>, r: string)
    requires Settled(all, before, loaded, waiting, repo) && Unprovided(all, waiting, repo, r)
    ensures !AllProvided(all, before)
  {
    var c :| c in waiting && r in Missing(c.resources, repo);
    MissingIff(c.resources, repo);
    assert c in multiset(loaded) + multiset(waiting);
  }

  lemma LoadedAreProvided(all: multiset<Config>, before: set<string>, loaded: seq<Config>, waiting: seq<Config>,
                          repo: set<string>)
    requires Settled(all, before, loaded, waiting, repo) && waiting == []
    ensures AllProvided(all, before)
  {
    ProvidedIs(loaded);
    forall c, r | c in all && r in c.resources && r !in before
      ensures DeclaredBy(all, r)
    {
      assert c in multiset(loaded);
      var k :| 0 <= k < |loaded| && loaded[k] == c;
      LoadOrderAt(before, loaded, k);
      MissingEmpty(c.resources, before + Provided(loaded[..k]));
      ProvidedPrefix(loaded, k);
      var d :| d in loaded && r in d.beans;
      assert d in multiset(loaded);
    }
  }

  // A cycle among what the waiting configurations still miss is a cycle among what
  // the registered ones require.
  lemma WaitingCycleIsDependencyCycle(cs: seq<Config>, before: set<string>, loaded: seq<Config>,
                                      waiting: seq<Config>, repo: set<string>)
    requires Settled(multiset(cs), before, loaded, waiting, repo)
    requires FreshBeans(multiset(cs), before) && UniqueNames(multiset(cs))
    requires DependencyGraph(waiting, repo).HasCycle()
    ensures DependencyGraph(cs, before).HasCycle()
  {
    var g, full := DependencyGraph(waiting, repo), DependencyGraph(cs, before);
    forall a | g.IsNode(a)
      ensures full.IsNode(a)
    {
      NodeWidens(cs, before, loaded, waiting, repo, a);
    }
    forall a, b | g.Edge(a, b)
      ensures full.Edge(a, b)
    {
      EdgeWidens(cs, before, loaded, waiting, repo, a, b);
    }
    var w :| g.IsClosedWalk(w);
    assert full.IsClosedWalk(w);
  }

  lemma NodeWidens(cs: seq<Config>, before: set<string>, loaded: seq<Config>, waiting: seq<Config>,
                   repo: set<string>, a: Node)
    requires Settled(multiset(cs), before, loaded, waiting, repo) && UniqueNames(multiset(cs))
    requires DependencyGraph(waiting, repo).IsNode(a)
    ensures DependencyGraph(cs, before).IsNode(a)
  {
    NodeOf(waiting, repo, a);
    var c :| c in waiting && c.name == a.config && a.resource in c.resources && a.resource !in repo;
    assert c in multiset(loaded) + multiset(waiting) && c in multiset(cs);
    IsNodeOf(cs, before, c, a.resource);
  }

  lemma EdgeWidens(cs: seq<Config>, before: set<string>, loaded: seq<Config>, waiting: seq<Config>,
                   repo: set<string>, a: Node, b: Node)
    requires Settled(multiset(cs), before, loaded, waiting, repo)
    requires FreshBeans(multiset(cs), before) && UniqueNames(multiset(cs))
    requires DependencyGraph(waiting, repo).Edge(a, b)
    ensures DependencyGraph(cs, before).Edge(a, b)
  {
    NodeWidens(cs, before, loaded, waiting, repo, a);
    NodeWidens(cs, before, loaded, waiting, repo, b);
    GraphDescribes(waiting, repo);
    var c :| c in waiting && c.name == DependencyGraph(waiting, repo).source[a.resource] && a.resource in c.beans;
    assert c in multiset(loaded) + multiset(waiting) && c in multiset(cs);
    SourceOf(cs, before, c, a.resource);
  }

  lemma NodeOf(cs: seq<Config>, repo: set<string>, n: Node)
    requires DependencyGraph(cs, repo).IsNode(n)
    ensures exists c :: c in cs && c.name == n.config && n.resource in c.resources && n.resource !in repo
  {
    GraphDescribes(cs, repo);
    var c :| c in cs && c.name == n.config
      && DependencyGraph(cs, repo).resources[n.config] == Missing(c.resources, repo);
    MissingIff(c.resources, repo);
  }

  lemma IsNodeOf(cs: seq<Config>, repo: set<string>, c: Config, r: string)
    requires UniqueNames(multiset(cs)) && c in cs && r in c.resources && r !in repo
    ensures DependencyGraph(cs, repo).IsNode(Node(c.name, r))
  {
    var g := DependencyGraph(cs, repo);
    GraphDescribes(cs, repo);
    var d :| d in cs && d.name == c.name && g.resources[c.name] == Missing(d.resources, repo);
    assert c in multiset(cs) && d in multiset(cs);
    MissingIff(c.resources, repo);
  }

  lemma SourceOf(cs: seq<Config>, repo: set<string>, c: Config, b: string)
    requires FreshBeans(multiset(cs), repo) && c in cs && b in c.beans
    ensures var g := DependencyGraph(cs, repo); b in g.source && g.source[b] == c.name
  {
    var g := DependencyGraph(cs, repo);
    GraphDescribes(cs, repo);
    var d :| d in cs && d.name == g.source[b] && b in d.beans;
    assert c in multiset(cs) && d in multiset(cs);
    assert b in ToSet(c.beans) && b in ToSet(d.beans);
  }

  // Where a configuration of the given name sits in the load order.
  function Position(loaded: seq<Config>, name: string): nat {
    if loaded == [] || loaded[0].name == name then 0 else 1 + Position(loaded[1..], name)
  }

  lemma {:induction false} PositionIs(loaded: seq<Config>, c: Config)
    requires c in loaded
    ensures var k := Position(loaded, c.name); k < |loaded| && loaded[k].name == c.name
    ensures forall j :: 0 <= j < |loaded| && loaded[j].name == c.name ==> Position(loaded, c.name) <= j
  {
    if loaded[0].name != c.name {
      PositionIs(loaded[1..], c);
      assert forall j :: 0 < j < |loaded| ==> loaded[j] == loaded[1..][j - 1];
    }
  }

  // When everything loaded, each dependency points to an earlier position.
  lemma EdgeDescends(cs: seq<Config>, before: set<string>, loaded: seq<Config>, repo: set<string>, a: Node, b: Node)
    requires Settled(multiset(cs), before, loaded, [], repo)
    requires FreshBeans(multiset(cs), before) && UniqueNames(multiset(cs))
    requires DependencyGraph(cs, before).Edge(a, b)
    ensures Position(loaded, b.config) < Position(loaded, a.config)
  {
    NodeOf(cs, before, a);
    var c :| c in cs && c.name == a.config && a.resource in c.resources && a.resource !in before;
    assert multiset(loaded) == multiset(cs);
    assert c in multiset(cs) && c in multiset(loaded);
    PositionIs(loaded, c);
    var k := Position(loaded, c.name);
    assert loaded[k] in multiset(loaded);
    LoadOrderAt(before, loaded, k);
    MissingEmpty(c.resources, before + Provided(loaded[..k]));
    ProvidedIs(loaded[..k]);
    var d :| d in loaded[..k] && a.resource in d.beans;
    var j :| 0 <= j < k && loaded[j] == d;
    assert d in multiset(loaded);
    SourceOf(cs, before, d, a.resource);
    PositionIs(loaded, d);
  }

  lemma AssembledIsAcyclic(cs: seq<Config>, before: set<string>, loaded: seq<Config>, repo: set<string>)
    requires Settled(multiset(cs), before, loaded, [], repo)
    requires FreshBeans(multiset(cs), before) && UniqueNames(multiset(cs))
    ensures !DependencyGraph(cs, before).HasCycle()
  {
    var g := DependencyGraph(cs, before);
    forall w | g.IsWalk(w) && |w| >= 2
      ensures w[0] != w[|w| - 1]
    {
      WalkDescends(cs, before, loaded, repo, w);
    }
  }

  lemma {:induction false} WalkDescends(cs: seq<Config>, before: set<string>, loaded: seq<Config>,
                                        repo: set<string>, w: seq<Node>)
    requires Settled(multiset(cs), before, loaded, [], repo)
    requires FreshBeans(multiset(cs), before) && UniqueNames(multiset(cs))
    requires DependencyGraph(cs, before).IsWalk(w) && |w| >= 2
    ensures Position(loaded, w[|w| - 1].config) < Position(loaded, w[0].config)
  {
    var n := |w| - 1;
    EdgeDescends(cs, before, loaded, repo, w[n - 1], w[n]);
    if n > 1 {
      DependencyGraph(cs, before).WalkSlice(w, 0, n);
      WalkDescends(cs, before, loaded, repo, w[0..n]);
    }
  }
}
