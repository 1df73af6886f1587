// di-lib: assembling a context, and the diagnosis when it cannot be assembled.
module Contexts {
  import opened Sequences
  import opened Wrappers
  import opened Configurations
  import opened DependencyCycles

  // How assemble() ends; all but the first are exceptions.
  datatype Outcome =
    | Assembled
    | CycleDetected(cycle: seq<string>)
    | Uninitialized(waiting: seq<string>)
    | InvalidBean(bean: string)

  function Configs(ws: seq<ConfigurationWrapper>): (cs: seq<Config>)
    ensures |cs| == |ws|
    ensures forall k :: 0 <= k < |ws| ==> cs[k] == ws[k].config
  {
    seq(|ws|, k requires 0 <= k < |ws| => ws[k].config)
  }

  // The graph the checker builds: for each configuration, what it misses and what it provides.
  function DependencyGraph(cs: seq<Config>, repo: set<string>): Graph {
    if cs == [] then Graph(map[], map[])
    else
      var c := cs[|cs| - 1];
      Added(DependencyGraph(cs[..|cs| - 1], repo), c.name, Missing(c.resources, repo), c.beans)
  }

  class Context {
    // The names of all registered beans
    var repo: set<string>
    // Registered, but not loaded so far
    var waiting: seq<ConfigurationWrapper>
    // Loaded, in the order of loading
    var active: seq<Config>

    ghost predicate Valid()
      reads this, waiting
    {
      && Distinct(waiting)
      && (forall w :: w in waiting ==> IsIdentifier(w.config.name))
      && (forall w :: w in waiting ==> w.Tracks(repo))
    }

    constructor ()
      ensures Valid() && repo == {} && waiting == [] && active == []
    {
      repo, waiting, active := {}, [], [];
    }

    method RegisterConfiguration(config: Config)
      requires Valid() && IsIdentifier(config.name)
      modifies this`waiting
      ensures Valid()
      ensures Configs(waiting) == old(Configs(waiting)) + [config]
      ensures |waiting| == |old(waiting)| + 1 && old(waiting) <= waiting && fresh(waiting[|waiting| - 1])
    {
      var wrapper := new ConfigurationWrapper(config);
      waiting := waiting + [wrapper];
    }

    // Adds a bean, or returns its name when it is empty or taken.
    method RegisterBean(name: string) returns (rejected: Option<string>)
      modifies this`repo
      ensures rejected == if name == "" || name in old(repo) then Some(name) else None
      ensures repo == if rejected.None? then old(repo) + {name} else old(repo)
    {
      if name == "" || name in repo {
        return Some(name);
      }
      repo := repo + {name};
      return None;
    }

    method ProvideBeans(beans: seq<string>) returns (rejected: Option<string>)
      modifies this`repo
      ensures rejected.None? ==> repo == old(repo) + ToSet(beans) && NewBeans(beans, old(repo))
      ensures rejected.Some? ==>
                && !NewBeans(beans, old(repo)) && old(repo) <= repo
                && exists k :: 0 <= k < |beans| && rejected == Some(beans[k]) && repo == old(repo) + ToSet(beans[..k])
    {
      var i := 0;
      while i < |beans|
        invariant 0 <= i <= |beans|
        invariant repo == old(repo) + ToSet(beans[..i])
        invariant NewBeans(beans[..i], old(repo))
      {
        assert beans[..i + 1] == beans[..i] + [beans[i]];
        rejected := RegisterBean(beans[i]);
        if rejected.Some? {
          assert beans[i] in beans;
          assert beans[i] in ToSet(beans[..i]) ==> exists k :: 0 <= k < i && beans[k] == beans[i];
          return;
        }
        i := i + 1;
      }
      assert beans[..i] == beans;
      rejected := None;
    }

    // Loads the configuration when all its resources are there.
    method LoadConfig(wrapper: ConfigurationWrapper) returns (r: Result<bool, string>)
      requires wrapper.Tracks(repo)
      modifies this`repo, this`active, wrapper
      ensures r == Ok(false) <==> Missing(wrapper.config.resources, old(repo)) != []
      ensures r == Ok(false) ==> repo == old(repo) && active == old(active) && wrapper.Lacks(repo)
      ensures r == Ok(true) ==>
                repo == old(repo) + ToSet(wrapper.config.beans) && active == old(active) + [wrapper.config]
      ensures r.Err? <==>
                Missing(wrapper.config.resources, old(repo)) == [] && !NewBeans(wrapper.config.beans, old(repo))
      ensures r.Err? ==> active == old(active) && old(repo) <= repo
    {
      var satisfied := wrapper.AreResourcesSatisfied(repo);
      if !satisfied {
        return Ok(false);
      }
      var built := wrapper.BuildConfig(repo);
      var rejected := ProvideBeans(wrapper.config.beans);
      if rejected.Some? {
        return Err(rejected.value);
      }
      active := active + [wrapper.config];
      return Ok(true);
    }

    // Visits one waiting configuration, and erases it when it loads.
    method Visit(i: nat) returns (r: Result<bool, string>)
      requires Valid() && i < |waiting|
      modifies this`repo, this`active, this`waiting, waiting[i]
      ensures r.Err? ==> active == old(active) && waiting == old(waiting)
      ensures r.Err? ==> !NewBeans(old(waiting[i]).config.beans, old(repo))
      ensures r.Ok? ==> Valid() && (r.value <==> Missing(old(waiting[i]).config.resources, old(repo)) == [])
      ensures r == Ok(false) ==> waiting == old(waiting) && active == old(active) && repo == old(repo)
      ensures r == Ok(false) && old(NoneSatisfied(i)) ==> NoneSatisfied(i + 1)
      ensures r == Ok(true) ==>
                && waiting == Without(old(waiting), i)
                && active == old(active) + [old(waiting)[i].config]
                && repo == old(repo) + ToSet(old(waiting)[i].config.beans)
    {
      var wrapper := waiting[i];
      StillTracking(waiting, repo, repo + ToSet(wrapper.config.beans));
      assert forall w :: w in waiting ==> w.Tracks(repo + ToSet(wrapper.config.beans));
      r := LoadConfig(wrapper);
      if r.Ok? {
        if r.value {
          assert repo == old(repo) + ToSet(wrapper.config.beans);
          assert forall w :: w in waiting && w != wrapper ==> w.Tracks(repo);
          EraseAt(waiting, i);
          waiting := Without(waiting, i);
          assert forall w :: w in waiting ==> w != wrapper && w.Tracks(repo);
        } else {
          MissingTwice(wrapper.config.resources, repo, repo);
          assert forall w :: w in waiting && w != wrapper ==> w.Tracks(repo);
          assert wrapper.Tracks(repo);
        }
      }
    }

    // One pass over the waiting configurations. The ghost parameters say what the
    // assembly began with and what it has loaded so far.
    method Sweep(ghost all: multiset<Config>, ghost before: set<string>, ghost base: seq<Config>,
                 ghost sofar: seq<Config>, ghost wrappers: set<ConfigurationWrapper>)
      returns (r: Result<bool, string>, ghost loaded: seq<Config>)
      requires Valid() && forall w :: w in waiting ==> w in wrappers
      requires active == base + sofar && InProgress(all, before, sofar, Configs(waiting), repo)
      modifies this, wrappers
      ensures active == base + loaded
      ensures r.Err? ==> !FreshBeans(all, before)
      ensures r.Ok? ==>
                && Valid() && (forall w :: w in waiting ==> w in wrappers)
                && InProgress(all, before, loaded, Configs(waiting), repo)
                && |waiting| <= |old(waiting)|
                && (if r.value then |waiting| < |old(waiting)| else NoneSatisfied(|waiting|))
    {
      var configProcessed := false;
      var i := 0;
      loaded := sofar;
      while i < |waiting|
        invariant 0 <= i <= |waiting| <= |old(waiting)|
        invariant configProcessed ==> |waiting| < |old(waiting)|
        invariant Valid() && forall w :: w in waiting ==> w in wrappers
        invariant active == base + loaded && InProgress(all, before, loaded, Configs(waiting), repo)
        invariant !configProcessed ==> NoneSatisfied(i)
        decreases |waiting| - i
      {
        ghost var cs, early := Configs(waiting), repo;
        assert cs[i] == waiting[i].config && waiting[i] in waiting;
        EraseAt(waiting, i);
        var visited := Visit(i);
        if visited.Err? {
          NotFresh(all, before, loaded, cs, early, i);
          return Err(visited.error), loaded;
        }
        if visited.value {
          configProcessed := true;
          LoadStep(all, before, loaded, cs, early, i);
          loaded := loaded + [cs[i]];
        } else {
          i := i + 1;
        }
      }
      r := Ok(configProcessed);
    }

    // The first k waiting configurations have been refreshed and lack a bean.
    ghost predicate NoneSatisfied(k: nat)
      reads this, waiting
    {
      k <= |waiting| && forall j :: 0 <= j < k ==> waiting[j].Lacks(repo)
    }

    // Sweeps the waiting configurations until a sweep loads nothing, then diagnoses what is left.
    method Assemble() returns (outcome: Outcome)
      requires Valid()
      modifies this, waiting
      ensures old(active) <= active
      ensures outcome.InvalidBean? ==> !FreshBeans(multiset(old(Configs(waiting))), old(repo))
      ensures !outcome.InvalidBean? ==>
                && Valid()
                && Settled(multiset(old(Configs(waiting))), old(repo), active[|old(active)|..], Configs(waiting), repo)
                && (forall w :: w in waiting ==> w in old(waiting))
                && NoneSatisfied(|waiting|)
                && Diagnosis(outcome, Configs(waiting), repo)
    {
      ghost var all := multiset(Configs(waiting));
      ghost var before, base, wrappers := repo, active, ToSet(waiting);
      ghost var loaded: seq<Config> := [];
      assert multiset(loaded) + all == all;
      var configProcessed := true;
      while configProcessed
        invariant Valid() && forall w :: w in waiting ==> w in wrappers
        invariant active == base + loaded && InProgress(all, before, loaded, Configs(waiting), repo)
        invariant !configProcessed ==> NoneSatisfied(|waiting|)
        decreases |waiting| + if configProcessed then 1 else 0
      {
        var swept;
        swept, loaded := Sweep(all, before, base, loaded, wrappers);
        if swept.Err? {
          return InvalidBean(swept.error);
        }
        configProcessed := swept.value;
      }
      assert forall c :: c in Configs(waiting) ==> Missing(c.resources, repo) != [];
      assert active[|base|..] == loaded;
      outcome := VerifyContext();
    }

    method VerifyContext() returns (outcome: Outcome)
      requires Valid()
      requires NoneSatisfied(|waiting|)
      ensures Diagnosis(outcome, Configs(waiting), repo)
    {
      if waiting == [] {
        return Assembled;
      }
      var checker := new CircularDependencyChecker();
      var i := 0;
      while i < |waiting|
        invariant 0 <= i <= |waiting|
        invariant checker.Valid() && checker.path == [] && fresh(checker)
        invariant checker.AsGraph() == DependencyGraph(Configs(waiting)[..i], repo)
      {
        var w := waiting[i];
        checker.Add(w.config.name, w.waitingResources, w.config.beans);
        assert Configs(waiting)[..i + 1][..i] == Configs(waiting)[..i];
        i := i + 1;
      }
      assert Configs(waiting)[..i] == Configs(waiting);
      var found := checker.CheckForCycle();
      if found {
        return CycleDetected(checker.cycle);
      }
      var names := [];
      i := 0;
      while i < |waiting|
        invariant 0 <= i <= |waiting|
        invariant |names| == i && forall k :: 0 <= k < i ==> names[k] == waiting[k].config.name
      {
        names := names + [waiting[i].config.name];
        i := i + 1;
      }
      return Uninitialized(names);
    }
  }

  // Which exception verifyContext throws, in terms of what is still waiting.
  ghost predicate Diagnosis(outcome: Outcome, waiting: seq<Config>, repo: set<string>) {
    var g := DependencyGraph(waiting, repo);
    match outcome
    case Assembled => waiting == []
    case CycleDetected(cycle) => waiting != [] && exists path :: Named(cycle, path) && g.IsMinimalCycle(path)
    case Uninitialized(names) =>
      waiting != [] && !g.HasCycle()
      && |names| == |waiting| && forall k :: 0 <= k < |names| ==> names[k] == waiting[k].name
    case InvalidBean(_) => false
  }

  // Beans that can all be registered, one after the other.
  ghost predicate NewBeans(beans: seq<string>, repo: set<string>) {
    Distinct(beans) && forall b :: b in beans ==> b != "" && b !in repo
  }

  // No bean name is empty, taken, or declared twice.
  ghost predicate FreshBeans(all: multiset<Config>, repo: set<string>) {
    && (forall c :: c in all ==> NewBeans(c.beans, repo) && (c.beans != [] ==> all[c] == 1))
    && (forall c, d :: c in all && d in all && c != d ==> ToSet(c.beans) !! ToSet(d.beans))
  }

  // A rejected bean means the declared names were not fresh.
  lemma NotFresh(all: multiset<Config>, before: set<string>, loaded: seq<Config>, waiting: seq<Config>,
                 repo: set<string>, i: nat)
    requires InProgress(all, before, loaded, waiting, repo) && i < |waiting|
    requires !NewBeans(waiting[i].beans, repo)
    ensures !FreshBeans(all, before)
  {
    var c := waiting[i];
    assert c in waiting && c in multiset(loaded) + multiset(waiting);
    if NewBeans(c.beans, before) {
      ProvidedIs(loaded);
      var b :| b in c.beans && b in Provided(loaded);
      var d :| d in loaded && b in d.beans;
      assert d in multiset(loaded) + multiset(waiting);
      assert b in ToSet(c.beans) && b in ToSet(d.beans);
      if c == d { assert all[c] >= 2; }
    }
  }

  lemma EraseAt(ws: seq<ConfigurationWrapper>, i: nat)
    requires Distinct(ws) && i < |ws|
    ensures Distinct(Without(ws, i))
    ensures forall w :: w in Without(ws, i) ==> w in ws && w != ws[i]
    ensures Configs(Without(ws, i)) == Without(Configs(ws), i)
  {
  }

  lemma StillTracking(ws: seq<ConfigurationWrapper>, early: set<string>, late: set<string>)
    requires early <= late
    requires forall w :: w in ws ==> w.Tracks(early)
    ensures forall w :: w in ws ==> w.Tracks(late)
  {
    forall w | w in ws
      ensures w.Tracks(late)
    {
      MissingTwice(w.waitingResources, early, late);
      MissingTwice(w.config.resources, early, late);
    }
  }
}
