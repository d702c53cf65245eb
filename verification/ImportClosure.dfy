/**
 Which packages a change can affect: the selected ones and everything that
 imports them, grown in place until a pass adds nothing.
 */
module ImportClosure {
  import opened Prelude

  datatype Package = Package(path: string, imports: set<string>)

  predicate Imports(graph: seq<Package>, importer: string, imported: string) {
    exists i :: 0 <= i < |graph| && graph[i].path == importer && imported in graph[i].imports
  }

  /** Each package of the chain imports the next, and the last one is selected. */
  predicate LeadsToSelected(graph: seq<Package>, selected: set<string>, chain: seq<string>) {
    chain != []
    && if |chain| == 1 then chain[0] in selected
       else Imports(graph, chain[0], chain[1]) && LeadsToSelected(graph, selected, chain[1..])
  }

  ghost predicate Affected(graph: seq<Package>, selected: set<string>, path: string) {
    exists chain :: LeadsToSelected(graph, selected, chain) && chain[0] == path
  }

  /** The recorded reasons, followed from package to package, spell out the chain. */
  predicate Told(through: map<string, string>, chain: seq<string>) {
    |chain| > 1 ==>
      chain[0] in through && through[chain[0]] == chain[1] && Told(through, chain[1..])
  }

  ghost predicate Explained(graph: seq<Package>, selected: set<string>, through: map<string, string>, path: string) {
    exists chain :: LeadsToSelected(graph, selected, chain) && chain[0] == path && Told(through, chain)
  }

  // ----- How the closure grows ------------------------------------------------------------------

  /**
   The packages of `order` join one after another. Each imports something
   that is in already, and its recorded reason is something it imports that is
   in once it has joined: the package itself is in by then.
   */
  ghost predicate Joined(graph: seq<Package>, selected: set<string>, order: seq<string>, through: map<string, string>) {
    && Distinct(order) && Elements(order) !! selected && through.Keys == Elements(order)
    && forall i {:trigger JoinsAt(graph, selected, order, through, i)} | 0 <= i < |order| ::
       JoinsAt(graph, selected, order, through, i)
  }

  ghost predicate JoinsAt(graph: seq<Package>, selected: set<string>, order: seq<string>, through: map<string, string>,
                          i: nat)
    requires i < |order|
  {
    var members := selected + Elements(order[..i]);
    && Enters(graph, members, order[i]) && order[i] in through && Imports(graph, order[i], through[order[i]])
    && through[order[i]] in members + {order[i]}
  }

  /** The package imports a member of the set. */
  ghost predicate Enters(graph: seq<Package>, members: set<string>, path: string) {
    exists imported :: imported in members && Imports(graph, path, imported)
  }

  lemma JoinOne(graph: seq<Package>, selected: set<string>, order: seq<string>, through: map<string, string>,
                path: string, reason: string)
    requires Joined(graph, selected, order, through) && path !in selected && path !in order
    requires Enters(graph, selected + Elements(order), path) && Imports(graph, path, reason)
    requires reason in selected + Elements(order) + {path}
    ensures Joined(graph, selected, order + [path], through[path := reason])
    ensures Elements(order + [path]) == Elements(order) + {path}
  {
    var more := order + [path];
    assert Elements(more) == Elements(order) + {path};
    forall i {:trigger JoinsAt(graph, selected, more, through[path := reason], i)} | 0 <= i < |more|
      ensures JoinsAt(graph, selected, more, through[path := reason], i)
    {
      if i < |order| {
        assert JoinsAt(graph, selected, order, through, i);
        assert more[..i] == order[..i];
      } else {
        assert more[..i] == order;
      }
    }
  }

  lemma ChainBefore(graph: seq<Package>, selected: set<string>, path: string, chain: seq<string>)
    requires LeadsToSelected(graph, selected, chain) && Imports(graph, path, chain[0])
    ensures LeadsToSelected(graph, selected, [path] + chain)
  {
    assert ([path] + chain)[1..] == chain;
  }

  /** Whatever joined is affected. */
  lemma {:induction false} JoinedIsAffected(graph: seq<Package>, selected: set<string>, order: seq<string>,
                                            through: map<string, string>, i: nat)
    requires Joined(graph, selected, order, through) && i < |order|
    ensures Affected(graph, selected, order[i])
  {
    assert JoinsAt(graph, selected, order, through, i);
    var imported :| imported in selected + Elements(order[..i]) && Imports(graph, order[i], imported);
    if imported in selected {
      assert LeadsToSelected(graph, selected, [imported]);
    } else {
      var j :| 0 <= j < i && order[..i][j] == imported;
      JoinedIsAffected(graph, selected, order, through, j);
    }
    var chain :| LeadsToSelected(graph, selected, chain) && chain[0] == imported;
    assert ([order[i]] + chain)[1..] == chain;
    ChainBefore(graph, selected, order[i], chain);
  }

  /** Among the first `n` packages, importing a member makes a member. */
  predicate ClosedUpward(graph: seq<Package>, n: nat, closure: set<string>)
    requires n <= |graph|
  {
    n == 0 || (ClosedUpward(graph, n - 1, closure)
               && (graph[n - 1].path in closure || graph[n - 1].imports * closure == {}))
  }

  lemma {:induction false} ClosedAt(graph: seq<Package>, n: nat, closure: set<string>, i: nat)
    requires i < n <= |graph| && ClosedUpward(graph, n, closure)
    ensures graph[i].path in closure || graph[i].imports * closure == {}
  {
    if i < n - 1 {
      ClosedAt(graph, n - 1, closure, i);
    }
  }

  /** The affected packages are in every set that holds the selected ones and all importers of its members. */
  lemma {:induction false} ClosedHoldsAffected(graph: seq<Package>, selected: set<string>, closure: set<string>,
                                               chain: seq<string>)
    requires selected <= closure && ClosedUpward(graph, |graph|, closure) && LeadsToSelected(graph, selected, chain)
    ensures chain[0] in closure
  {
    if |chain| > 1 {
      ClosedHoldsAffected(graph, selected, closure, chain[1..]);
      var i :| 0 <= i < |graph| && graph[i].path == chain[0] && chain[1] in graph[i].imports;
      ClosedAt(graph, |graph|, closure, i);
      assert chain[1] in graph[i].imports * closure;
    }
  }

  function Paths(graph: seq<Package>): set<string> {
    set p | p in graph :: p.path
  }

  /** How many packages can still be added. */
  ghost function Left(graph: seq<Package>, closure: set<string>): nat {
    |Paths(graph) - closure|
  }

  /** What a run of the passes can end with. */
  ghost predicate Outcome(graph: seq<Package>, selected: set<string>, closure: set<string>,
                          through: map<string, string>) {
    && (exists order :: Joined(graph, selected, order, through) && closure == selected + Elements(order))
    && ClosedUpward(graph, |graph|, closure)
  }

  /**
   Repeat passes over the packages, adding in place, until one adds nothing.
   Whatever their order and however they import each other, the result is
   exactly the packages from which imports lead to a selected one. A reason
   is picked once its package is in.
   */
  method Close(graph: seq<Package>, selected: set<string>) returns (closure: set<string>, through: map<string, string>)
    ensures forall path :: path in closure <==> Affected(graph, selected, path)
    ensures Outcome(graph, selected, closure, through)
  {
    hide Joined, Left, Elements;
    closure, through := selected, map[];
    ghost var order: seq<string> := [];
    NoneJoined(graph, selected);
    var grew := true;
    while grew
      invariant Joined(graph, selected, order, through) && closure == selected + Elements(order)
      invariant !grew ==> ClosedUpward(graph, |graph|, closure)
      decreases Left(graph, closure), grew
    {
      ghost var before, left := closure, Left(graph, closure);
      grew := false;
      for i := 0 to |graph|
        invariant Joined(graph, selected, order, through) && closure == selected + Elements(order)
        invariant !grew ==> closure == before && ClosedUpward(graph, i, closure)
        invariant grew ==> Left(graph, closure) < left
      {
        var package := graph[i];
        if package.path !in closure && package.imports * closure != {} {
          JoinsNext(graph, selected, order, through, closure, package);
          closure := closure + {package.path};
          var reason :| reason in package.imports * closure;
          order, through := order + [package.path], through[package.path := reason];
          grew := true;
        }
      }
    }
    OutcomeIsAffected(graph, selected, closure, through);
  }

  /** One more package joins, with any reason found once it is in. */
  lemma JoinsNext(graph: seq<Package>, selected: set<string>, order: seq<string>, through: map<string, string>,
                  closure: set<string>, package: Package)
    requires Joined(graph, selected, order, through) && closure == selected + Elements(order)
    requires package in graph && package.path !in closure && package.imports * closure != {}
    ensures package.imports * (closure + {package.path}) != {}
    ensures forall reason | reason in package.imports * (closure + {package.path}) ::
              Joined(graph, selected, order + [package.path], through[package.path := reason])
    ensures closure + {package.path} == selected + Elements(order + [package.path])
    ensures Left(graph, closure + {package.path}) < Left(graph, closure)
  {
    hide Joined;
    Fewer(graph, closure, package);
    var known :| known in package.imports * closure;
    assert known in package.imports * (closure + {package.path});
    assert Imports(graph, package.path, known);
    forall reason | reason in package.imports * (closure + {package.path})
      ensures Joined(graph, selected, order + [package.path], through[package.path := reason])
      ensures Elements(order + [package.path]) == Elements(order) + {package.path}
    {
      JoinOne(graph, selected, order, through, package.path, reason);
    }
  }

  lemma NoneJoined(graph: seq<Package>, selected: set<string>)
    ensures Joined(graph, selected, [], map[]) && Elements<string>([]) == {}
  {
  }

  /** Adding a package leaves fewer to add. */
  lemma Fewer(graph: seq<Package>, closure: set<string>, package: Package)
    requires package in graph && package.path !in closure
    ensures Left(graph, closure + {package.path}) < Left(graph, closure)
  {
    var left := Paths(graph) - closure;
    assert package.path in left;
    assert Paths(graph) - (closure + {package.path}) == left - {package.path};
  }

  /** Every outcome has the same closure. */
  lemma OutcomeIsAffected(graph: seq<Package>, selected: set<string>, closure: set<string>,
                          through: map<string, string>)
    requires Outcome(graph, selected, closure, through)
    ensures forall path :: path in closure <==> Affected(graph, selected, path)
  {
    var order :| Joined(graph, selected, order, through) && closure == selected + Elements(order);
    forall path | path in closure ensures Affected(graph, selected, path) {
      if path in selected {
        assert LeadsToSelected(graph, selected, [path]);
      } else {
        var i :| 0 <= i < |order| && order[i] == path;
        JoinedIsAffected(graph, selected, order, through, i);
      }
    }
    forall path | Affected(graph, selected, path) ensures path in closure {
      var chain :| LeadsToSelected(graph, selected, chain) && chain[0] == path;
      ClosedHoldsAffected(graph, selected, closure, chain);
    }
  }

  // ----- The recorded reasons --------------------------------------------------------------------

  /** Every package of the closure is led by its reasons to a selected one. */
  ghost predicate AllExplained(graph: seq<Package>, selected: set<string>, closure: set<string>,
                               through: map<string, string>) {
    forall path {:trigger Explained(graph, selected, through, path)} | path in closure ::
      Explained(graph, selected, through, path)
  }

  lemma {:induction false} JoinedIsExplained(graph: seq<Package>, selected: set<string>, order: seq<string>,
                                             through: map<string, string>, i: nat)
    requires Joined(graph, selected, order, through) && i < |order| && forall p | p in through :: through[p] != p
    ensures Explained(graph, selected, through, order[i])
  {
    assert JoinsAt(graph, selected, order, through, i);
    var reason := through[order[i]];
    if reason in selected {
      assert LeadsToSelected(graph, selected, [reason]) && Told(through, [reason]);
    } else {
      var j :| 0 <= j < i && order[..i][j] == reason;
      JoinedIsExplained(graph, selected, order, through, j);
    }
    var chain :| LeadsToSelected(graph, selected, chain) && chain[0] == reason && Told(through, chain);
    assert ([order[i]] + chain)[1..] == chain;
    ChainBefore(graph, selected, order[i], chain);
    assert Told(through, [order[i]] + chain);
  }

  /** Reasons that lead a package to itself lead nowhere else. */
  lemma {:induction false} LedToItself(graph: seq<Package>, selected: set<string>, through: map<string, string>,
                                       chain: seq<string>)
    requires LeadsToSelected(graph, selected, chain) && Told(through, chain) && chain[0] !in selected
    requires chain[0] in through
    ensures through[chain[0]] != chain[0]
  {
    if |chain| > 1 && through[chain[0]] == chain[0] {
      LedToItself(graph, selected, through, chain[1..]);
    }
  }

  /** The reasons of one outcome lead every package to a selected one exactly if none names its own package. */
  lemma ExplainedExactlyWhen(graph: seq<Package>, selected: set<string>, closure: set<string>,
                             through: map<string, string>)
    requires Outcome(graph, selected, closure, through)
    ensures AllExplained(graph, selected, closure, through) <==> forall p | p in through :: through[p] != p
  {
    var order :| Joined(graph, selected, order, through) && closure == selected + Elements(order);
    if forall p | p in through :: through[p] != p {
      forall path | path in closure ensures Explained(graph, selected, through, path) {
        if path in selected {
          assert LeadsToSelected(graph, selected, [path]) && Told(through, [path]);
        } else {
          var i :| 0 <= i < |order| && order[i] == path;
          JoinedIsExplained(graph, selected, order, through, i);
        }
      }
    } else {
      var p :| p in through && through[p] == p;
      assert p in Elements(order) && p in closure && p !in selected;
      if Explained(graph, selected, through, p) {
        var chain :| LeadsToSelected(graph, selected, chain) && chain[0] == p && Told(through, chain);
        LedToItself(graph, selected, through, chain);
      }
    }
  }

  lemma {:induction false} NotClosed(graph: seq<Package>, n: nat, closure: set<string>) returns (i: nat)
    requires n <= |graph| && !ClosedUpward(graph, n, closure)
    ensures i < n && graph[i].path !in closure && graph[i].imports * closure != {}
  {
    if graph[n - 1].path !in closure && graph[n - 1].imports * closure != {} {
      i := n - 1;
    } else {
      i := NotClosed(graph, n - 1, closure);
    }
  }

  /** Packages that joined so far can always be followed by the rest. */
  lemma {:induction false} JoinedCompletes(graph: seq<Package>, selected: set<string>, order: seq<string>,
                                           through: map<string, string>)
    returns (closure: set<string>, more: map<string, string>)
    requires Joined(graph, selected, order, through)
    ensures Outcome(graph, selected, closure, more)
    decreases Left(graph, selected + Elements(order))
  {
    hide Joined;
    closure, more := selected + Elements(order), through;
    if !ClosedUpward(graph, |graph|, closure) {
      var i := NotClosed(graph, |graph|, closure);
      var imported :| imported in graph[i].imports * closure;
      assert Imports(graph, graph[i].path, imported);
      JoinOne(graph, selected, order, through, graph[i].path, imported);
      Fewer(graph, closure, graph[i]);
      assert selected + Elements(order + [graph[i].path]) == closure + {graph[i].path};
      closure, more := JoinedCompletes(graph, selected, order + [graph[i].path], through[graph[i].path := imported]);
    }
  }

  /** A package that imports itself may be its own reason. */
  lemma ItselfForReason(graph: seq<Package>, selected: set<string>, closure: set<string>, through: map<string, string>,
                        p: string)
    requires Outcome(graph, selected, closure, through) && p in closure && p !in selected && Imports(graph, p, p)
    ensures Outcome(graph, selected, closure, through[p := p])
  {
    var order :| Joined(graph, selected, order, through) && closure == selected + Elements(order);
    var i :| 0 <= i < |order| && order[i] == p;
    forall k {:trigger JoinsAt(graph, selected, order, through[p := p], k)} | 0 <= k < |order|
      ensures JoinsAt(graph, selected, order, through[p := p], k)
    {
      assert JoinsAt(graph, selected, order, through, k);
      if k != i { assert order[k] != order[i]; }
    }
    assert Joined(graph, selected, order, through[p := p]);
  }

  /**
   Every run of the passes leaves reasons that lead to a selected package
   exactly if no affected package that is not itself selected imports itself,
   as a package with external tests does.
   */
  lemma ReasonsLeadExactlyWhen(graph: seq<Package>, selected: set<string>)
    ensures (forall closure, through | Outcome(graph, selected, closure, through) ::
             AllExplained(graph, selected, closure, through))
            <==> forall p | Affected(graph, selected, p) && p !in selected :: !Imports(graph, p, p)
  {
    if p :| Affected(graph, selected, p) && p !in selected && Imports(graph, p, p) {
      var closure, through := JoinedCompletes(graph, selected, [], map[]);
      OutcomeIsAffected(graph, selected, closure, through);
      ItselfForReason(graph, selected, closure, through, p);
      ExplainedExactlyWhen(graph, selected, closure, through[p := p]);
      assert through[p := p][p] == p;
    } else {
      forall closure, through | Outcome(graph, selected, closure, through)
        ensures AllExplained(graph, selected, closure, through) {
        OutcomeIsAffected(graph, selected, closure, through);
        ExplainedExactlyWhen(graph, selected, closure, through);
        var order :| Joined(graph, selected, order, through) && closure == selected + Elements(order);
        forall p | p in through ensures through[p] != p {
          var i :| 0 <= i < |order| && order[i] == p;
          assert JoinsAt(graph, selected, order, through, i);
        }
      }
    }
  }

  /** The concrete case: `x` imports the selected `s`, and its external tests import `x`. */
  lemma APackageExplainsItself()
    ensures var graph, selected := [Package("x", {"s", "x"})], {"s"};
            Outcome(graph, selected, {"s", "x"}, map["x" := "x"])
            && !AllExplained(graph, selected, {"s", "x"}, map["x" := "x"])
  {
    var graph, selected := [Package("x", {"s", "x"})], {"s"};
    assert graph[0].path == "x" && Imports(graph, "x", "s") && Imports(graph, "x", "x");
    assert Joined(graph, selected, [], map[]);
    JoinOne(graph, selected, [], map[], "x", "x");
    assert Joined(graph, selected, [] + ["x"], map["x" := "x"]);
    assert {"s", "x"} == selected + Elements([] + ["x"]);
    assert ClosedUpward(graph, 0, {"s", "x"});
    ExplainedExactlyWhen(graph, selected, {"s", "x"}, map["x" := "x"]);
  }

  lemma {:induction false} SameChains(graph: seq<Package>, other: seq<Package>, selected: set<string>,
                                      chain: seq<string>)
    requires multiset(graph) == multiset(other) && LeadsToSelected(graph, selected, chain)
    ensures LeadsToSelected(other, selected, chain)
  {
    if |chain| > 1 {
      var i :| 0 <= i < |graph| && graph[i].path == chain[0] && chain[1] in graph[i].imports;
      assert graph[i] in multiset(other);
      SameChains(graph, other, selected, chain[1..]);
    }
  }

  /** The order in which the packages are listed does not matter. */
  lemma OrderDoesNotMatter(graph: seq<Package>, other: seq<Package>, selected: set<string>, path: string)
    requires multiset(graph) == multiset(other)
    ensures Affected(graph, selected, path) <==> Affected(other, selected, path)
  {
    if Affected(graph, selected, path) {
      var chain :| LeadsToSelected(graph, selected, chain) && chain[0] == path;
      SameChains(graph, other, selected, chain);
    }
    if Affected(other, selected, path) {
      var chain :| LeadsToSelected(other, selected, chain) && chain[0] == path;
      SameChains(other, graph, selected, chain);
    }
  }
}
