// di-lib: configurations, the wrappers that track what they still wait for, and
// the pure theory of which configurations can load.
module Configurations {
  import opened Sequences
  import opened Wrappers

  // What the macros declare for one configuration class.
  datatype Config = Config(name: string, resources: seq<string>, beans: seq<string>)

  // The names that have no bean yet, in their original order.
  function Missing(names: seq<string>, repo: set<string>): seq<string> {
    if names == [] then []
    else if names[0] in repo then Missing(names[1..], repo)
    else [names[0]] + Missing(names[1..], repo)
  }

  // Exactly the names without a bean stay, each as often as before, and in their places.
  lemma {:induction false} MissingIs(names: seq<string>, repo: set<string>, r: string)
    ensures multiset(Missing(names, repo))[r] == if r in repo then 0 else multiset(names)[r]
  {
    if names != [] {
      MissingIs(names[1..], repo, r);
      assert names == [names[0]] + names[1..];
    }
  }

  lemma {:induction false} MissingInOrder(a: seq<string>, b: seq<string>, repo: set<string>)
    ensures Missing(a + b, repo) == Missing(a, repo) + Missing(b, repo)
  {
    if a == [] {
      assert a + b == b;
    } else {
      MissingInOrder(a[1..], b, repo);
      assert (a + b)[1..] == a[1..] + b;
    }
  }

  // Dropping satisfied names early does not change what is missing later.
  lemma {:induction false} MissingTwice(names: seq<string>, early: set<string>, late: set<string>)
    requires early <= late
    ensures Missing(Missing(names, early), late) == Missing(names, late)
  {
    if names != [] {
      MissingTwice(names[1..], early, late);
      if names[0] !in early {
        assert Missing(names, early)[0] == names[0];
        assert Missing(names, early)[1..] == Missing(names[1..], early);
      }
    }
  }

  class ConfigurationWrapper {
    const config: Config
    var waitingResources: seq<string>

    constructor (config: Config)
      ensures this.config == config && waitingResources == config.resources
    {
      this.config := config;
      waitingResources := config.resources;
    }

    // What was erased so far was satisfied.
    ghost predicate Tracks(repo: set<string>)
      reads this
    {
      Missing(waitingResources, repo) == Missing(config.resources, repo)
    }

    // The list is up to date, and something is still missing.
    ghost predicate Lacks(repo: set<string>)
      reads this
    {
      waitingResources == Missing(config.resources, repo) != []
    }

    // Erases every resource that has a bean; true when nothing is left.
    method AreResourcesSatisfied(repo: set<string>) returns (satisfied: bool)
      modifies this
      ensures waitingResources == Missing(old(waitingResources), repo)
      ensures satisfied <==> waitingResources == []
      ensures satisfied <==> forall r :: r in old(waitingResources) ==> r in repo
    {
      MissingEmpty(waitingResources, repo);
      waitingResources := Missing(waitingResources, repo);
      satisfied := waitingResources == [];
    }

    // Builds the configuration, or throws with the names that are still missing.
    method BuildConfig(repo: set<string>) returns (r: Result<Config, seq<string>>)
      modifies this
      ensures waitingResources == Missing(old(waitingResources), repo)
      ensures r == if waitingResources == [] then Ok(config) else Err(waitingResources)
    {
      var satisfied := AreResourcesSatisfied(repo);
      if !satisfied {
        return Err(waitingResources);
      }
      return Ok(config);
    }
  }

  function Provided(cs: seq<Config>): set<string> {
    if cs == [] then {} else Provided(cs[..|cs| - 1]) + ToSet(cs[|cs| - 1].beans)
  }

  lemma {:induction false} ProvidedIs(cs: seq<Config>)
    ensures Provided(cs) == ProvidedBySet(ToSet(cs))
  {
    if cs != [] {
      var n := |cs| - 1;
      ProvidedIs(cs[..n]);
      assert cs == cs[..n] + [cs[n]];
    }
  }

  function ProvidedBySet(cs: set<Config>): set<string> {
    set c, b | c in cs && b in c.beans :: b
  }

  // Each configuration found all its resources among earlier ones.
  ghost predicate LoadOrder(repo: set<string>, loaded: seq<Config>) {
    loaded == [] ||
    var n := |loaded| - 1;
    LoadOrder(repo, loaded[..n]) && Missing(loaded[n].resources, repo + Provided(loaded[..n])) == []
  }

  // Every configuration is accounted for, and each loaded one had its resources when it loaded.
  ghost predicate InProgress(all: multiset<Config>, before: set<string>, loaded: seq<Config>, waiting: seq<Config>,
                             repo: set<string>) {
    && multiset(loaded) + multiset(waiting) == all
    && LoadOrder(before, loaded)
    && repo == before + Provided(loaded)
  }

  // Where the sweeps stop: no waiting configuration has all its resources.
  ghost predicate Settled(all: multiset<Config>, before: set<string>, loaded: seq<Config>, waiting: seq<Config>,
                          repo: set<string>) {
    && InProgress(all, before, loaded, waiting, repo)
    && forall c :: c in waiting ==> Missing(c.resources, repo) != []
  }

  // Closed under "a configuration whose resources are all available loads".
  ghost predicate Closed(all: multiset<Config>, before: set<string>, s: set<Config>) {
    forall c :: c in all && Missing(c.resources, before + ProvidedBySet(s)) == [] ==> c in s
  }

  // Moving one satisfied configuration from waiting to loaded.
  lemma LoadStep(all: multiset<Config>, before: set<string>, loaded: seq<Config>, waiting: seq<Config>,
                 repo: set<string>, i: nat)
    requires InProgress(all, before, loaded, waiting, repo)
    requires i < |waiting| && Missing(waiting[i].resources, repo) == []
    ensures InProgress(all, before, loaded + [waiting[i]], Without(waiting, i), repo + ToSet(waiting[i].beans))
  {
    var c := waiting[i];
    var more := loaded + [c];
    assert waiting == waiting[..i] + [c] + waiting[i + 1..];
    assert more[..|loaded|] == loaded;
  }

  lemma {:induction false} MissingIff(names: seq<string>, repo: set<string>)
    ensures forall r :: r in Missing(names, repo) <==> r in names && r !in repo
  {
    if names != [] {
      MissingIff(names[1..], repo);
      assert forall r :: r in names <==> r == names[0] || r in names[1..];
    }
  }

  lemma MissingEmpty(names: seq<string>, repo: set<string>)
    ensures Missing(names, repo) == [] <==> forall r :: r in names ==> r in repo
  {
    MissingIff(names, repo);
    if Missing(names, repo) != [] {
      assert Missing(names, repo)[0] in Missing(names, repo);
    }
  }

  lemma MissingMonotone(names: seq<string>, small: set<string>, large: set<string>)
    requires small <= large && Missing(names, small) == []
    ensures Missing(names, large) == []
  {
    MissingEmpty(names, small);
    MissingEmpty(names, large);
  }

  lemma ProvidedPrefix(cs: seq<Config>, k: nat)
    requires k <= |cs|
    ensures Provided(cs[..k]) <= Provided(cs)
  {
    ProvidedIs(cs);
    ProvidedIs(cs[..k]);
  }

  // The loaded configurations are a closed set, and contained in every closed set.
  lemma LoadedIsLeast(all: multiset<Config>, before: set<string>, loaded: seq<Config>, waiting: seq<Config>,
                      repo: set<string>)
    requires Settled(all, before, loaded, waiting, repo)
    ensures Closed(all, before, ToSet(loaded))
    ensures forall s :: Closed(all, before, s) ==> ToSet(loaded) <= s
  {
    ProvidedIs(loaded);
    forall c | c in all && Missing(c.resources, repo) == []
      ensures c in ToSet(loaded)
    {
      assert c in multiset(loaded) + multiset(waiting);
    }
    forall s | Closed(all, before, s)
      ensures ToSet(loaded) <= s
    {
      LoadedInClosed(all, before, loaded, s);
    }
  }

  lemma {:induction false} LoadedInClosed(all: multiset<Config>, before: set<string>, loaded: seq<Config>,
                                          s: set<Config>)
    requires LoadOrder(before, loaded) && Closed(all, before, s)
    requires forall c :: c in loaded ==> c in all
    ensures ToSet(loaded) <= s
  {
    if loaded != [] {
      var n := |loaded| - 1;
      var init := loaded[..n];
      LoadedInClosed(all, before, init, s);
      ProvidedIs(init);
      MissingMonotone(loaded[n].resources, before + Provided(init), before + ProvidedBySet(s));
      assert loaded[n] in loaded;
      assert loaded == init + [loaded[n]];
    }
  }

  // A configuration value is either loaded or waiting, never both.
  lemma LoadedNotWaiting(all: multiset<Config>, before: set<string>, loaded: seq<Config>, waiting: seq<Config>,
                         repo: set<string>, c: Config)
    requires Settled(all, before, loaded, waiting, repo)
    requires c in loaded
    ensures c !in waiting
  {
    var k :| 0 <= k < |loaded| && loaded[k] == c;
    LoadOrderAt(before, loaded, k);
    ProvidedPrefix(loaded, k);
    MissingMonotone(c.resources, before + Provided(loaded[..k]), repo);
  }

  lemma {:induction false} LoadOrderAt(repo: set<string>, loaded: seq<Config>, k: nat)
    requires LoadOrder(repo, loaded) && k < |loaded|
    ensures Missing(loaded[k].resources, repo + Provided(loaded[..k])) == []
  {
    var n := |loaded| - 1;
    if k < n {
      LoadOrderAt(repo, loaded[..n], k);
      assert loaded[..n][..k] == loaded[..k];
    }
  }

  // Sweeping the same configurations in any registration order ends the same way.
  lemma OrderIndependent(all: multiset<Config>, before: set<string>,
                         loaded1: seq<Config>, waiting1: seq<Config>, repo1: set<string>,
                         loaded2: seq<Config>, waiting2: seq<Config>, repo2: set<string>)
    requires Settled(all, before, loaded1, waiting1, repo1)
    requires Settled(all, before, loaded2, waiting2, repo2)
    ensures multiset(loaded1) == multiset(loaded2)
    ensures multiset(waiting1) == multiset(waiting2)
    ensures repo1 == repo2
  {
    SameLoaded(all, before, loaded1, waiting1, repo1, loaded2, waiting2, repo2);
    ProvidedIs(loaded1);
    ProvidedIs(loaded2);
    forall c
      ensures multiset(loaded1)[c] == multiset(loaded2)[c]
    {
      LoadedCount(all, before, loaded1, waiting1, repo1, c);
      LoadedCount(all, before, loaded2, waiting2, repo2, c);
      assert c in ToSet(loaded1) <==> c in ToSet(loaded2);
    }
    assert multiset(loaded1) == multiset(loaded2);
    assert multiset(waiting1) == all - multiset(loaded1);
    assert multiset(waiting2) == all - multiset(loaded2);
  }

  lemma SameLoaded(all: multiset<Config>, before: set<string>,
                   loaded1: seq<Config>, waiting1: seq<Config>, repo1: set<string>,
                   loaded2: seq<Config>, waiting2: seq<Config>, repo2: set<string>)
    requires Settled(all, before, loaded1, waiting1, repo1)
    requires Settled(all, before, loaded2, waiting2, repo2)
    ensures ToSet(loaded1) == ToSet(loaded2)
  {
    LoadedIsLeast(all, before, loaded1, waiting1, repo1);
    LoadedIsLeast(all, before, loaded2, waiting2, repo2);
  }

  lemma LoadedCount(all: multiset<Config>, before: set<string>, loaded: seq<Config>, waiting: seq<Config>,
                    repo: set<string>, c: Config)
    requires Settled(all, before, loaded, waiting, repo)
    ensures multiset(loaded)[c] == if c in loaded then all[c] else 0
  {
    if c in loaded {
      LoadedNotWaiting(all, before, loaded, waiting, repo, c);
      assert c !in multiset(waiting);
    } else {
      assert c !in multiset(loaded);
    }
  }
}
