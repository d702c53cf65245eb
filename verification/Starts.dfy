/**
 Which components a composed contribution starts, in which order and how often,
 told by components that record each of their starts.
 */
module Starts {
  import opened Prelude
  import opened Flow
  import opened Extensions
  import opened Lowering
  import opened Meaning
  import opened LoweringProof
  import opened LoweringTheorems

  type Behaviour = (Ref, map<string, Json>, seq<string>) -> Outcome

  /** Components with these outcomes, each start of which is recorded. */
  function Recording(behave: Behaviour): Invocation {
    (ref, args, path) => Run(behave(ref, args, path), [Started(ref, args, path)])
  }

  function Recorded(rt: Runtime, scope: Scope, behave: Behaviour, authored: seq<Component>): World {
    World(rt, scope, Recording(behave), authored)
  }

  /** All starts of a history; those of concurrent histories in the order of the branches. */
  function StartsIn(events: seq<Event>): seq<Event>
    decreases events, 0
  {
    if events == [] then []
    else StartsIn(events[..|events| - 1]) + StartsOf(events[|events| - 1])
  }

  function StartsOf(e: Event): seq<Event>
    decreases e, 1
  {
    match e
    case Started(_, _, _) => [e]
    case Together(histories) => StartsInEach(histories)
  }

  function StartsInEach(histories: seq<History>): seq<Event>
    decreases histories, 0
  {
    if histories == [] then []
    else StartsInEach(histories[..|histories| - 1]) + StartsIn(histories[|histories| - 1].events)
  }

  lemma {:induction false} StartsInJoin(a: seq<Event>, b: seq<Event>)
    ensures StartsIn(a + b) == StartsIn(a) + StartsIn(b)
  {
    if b == [] {
      assert a + b == a;
    } else {
      StartsInJoin(a, b[..|b| - 1]);
      assert (a + b)[..|a + b| - 1] == a + b[..|b| - 1];
    }
  }

  /** The call path at which a group enters its member `i`. */
  function MemberPath(kind: Kind, path: seq<string>, i: nat): seq<string> {
    (if kind == ParallelOf then path + ["run"] else path) + [Member(i)]
  }

  /**
   The event is the start of a leaf of the tree: its one target, with the bound
   inputs, at the call path of the leaf.
   */
  ghost predicate StartsALeaf(w: World, ext: Extension, path: seq<string>, e: Event)
    decreases ext
  {
    match ext
    case Leaf(_, _, _, bindings, _) =>
      var found, args := Targets(w.authored, ext), FetchAll(w.rt, w.scope, LeafInputs(bindings));
      found != [] && args.Some? && e == Started(found[0].ref, args.value, path + ["run"])
    case Group(_, kind, members, _, _, _) =>
      exists i :: 0 <= i < |members| && StartsALeaf(w, members[i], MemberPath(kind, path, i), e)
  }

  lemma {:induction false} LeavesStartBelow(w: World, ext: Extension, path: seq<string>, e: Event)
    requires StartsALeaf(w, ext, path, e)
    ensures e.Started? && path <= e.path
    decreases ext
  {
    if ext.Group? {
      var i :| 0 <= i < |ext.members| && StartsALeaf(w, ext.members[i], MemberPath(ext.kind, path, i), e);
      LeavesStartBelow(w, ext.members[i], MemberPath(ext.kind, path, i), e);
    }
  }

  /** Starts in different members have different call paths. */
  lemma MembersStartApart(w: World, kind: Kind, members: seq<Extension>, path: seq<string>, i: nat, j: nat, a: Event,
                          b: Event)
    requires i < j < |members|
    requires StartsALeaf(w, members[i], MemberPath(kind, path, i), a)
             && StartsALeaf(w, members[j], MemberPath(kind, path, j), b)
    ensures a.Started? && b.Started? && a.path != b.path
  {
    LeavesStartBelow(w, members[i], MemberPath(kind, path, i), a);
    LeavesStartBelow(w, members[j], MemberPath(kind, path, j), b);
    MemberNames(i, j);
    var at := |MemberPath(kind, path, i)| - 1;
    assert a.path[at] == MemberPath(kind, path, i)[at] == Member(i);
    assert b.path[at] == MemberPath(kind, path, j)[at] == Member(j);
  }

  /** Each start is the start of a leaf of the tree, and no two have the same call path. */
  ghost predicate EachOnce(w: World, ext: Extension, path: seq<string>, starts: seq<Event>) {
    (forall e | e in starts :: StartsALeaf(w, ext, path, e)) && ApartPaths(starts)
  }

  ghost predicate ApartPaths(starts: seq<Event>) {
    && (forall e | e in starts :: e.Started?)
    && forall j, k | 0 <= j < k < |starts| :: starts[j].path != starts[k].path
  }

  /** The same for the members from `low` up to but not including `high`. */
  ghost predicate EachOnceBetween(w: World, kind: Kind, members: seq<Extension>, path: seq<string>, low: nat, high: nat,
                                  starts: seq<Event>) {
    && (forall e | e in starts :: StartsAMember(w, kind, members, path, low, high, e))
    && ApartPaths(starts)
  }

  ghost predicate StartsAMember(w: World, kind: Kind, members: seq<Extension>, path: seq<string>, low: nat, high: nat,
                                e: Event) {
    exists i :: low <= i < high && i < |members| && StartsALeaf(w, members[i], MemberPath(kind, path, i), e)
  }

  lemma StartsJoin(w: World, kind: Kind, members: seq<Extension>, path: seq<string>, low: nat, middle: nat, high: nat,
                   a: seq<Event>, b: seq<Event>)
    requires low <= middle <= high
    requires EachOnceBetween(w, kind, members, path, low, middle, a)
             && EachOnceBetween(w, kind, members, path, middle, high, b)
    ensures EachOnceBetween(w, kind, members, path, low, high, a + b)
  {
    forall e | e in a + b ensures StartsAMember(w, kind, members, path, low, high, e) {
      if e in a { assert StartsAMember(w, kind, members, path, low, middle, e); }
      else { assert StartsAMember(w, kind, members, path, middle, high, e); }
    }
    forall x, y | x in a && y in b ensures x.Started? && y.Started? && x.path != y.path {
      assert StartsAMember(w, kind, members, path, low, middle, x)
             && StartsAMember(w, kind, members, path, middle, high, y);
      var i :| low <= i < middle && i < |members| && StartsALeaf(w, members[i], MemberPath(kind, path, i), x);
      var j :| middle <= j < high && j < |members| && StartsALeaf(w, members[j], MemberPath(kind, path, j), y);
      MembersStartApart(w, kind, members, path, i, j, x, y);
    }
  }

  lemma StartsOfOne(w: World, kind: Kind, members: seq<Extension>, path: seq<string>, i: nat, starts: seq<Event>)
    requires i < |members| && EachOnce(w, members[i], MemberPath(kind, path, i), starts)
    ensures EachOnceBetween(w, kind, members, path, i, i + 1, starts)
  {
    forall e | e in starts ensures StartsAMember(w, kind, members, path, i, i + 1, e) {
      assert StartsALeaf(w, members[i], MemberPath(kind, path, i), e);
    }
  }

  lemma StartsOfGroup(w: World, group: Extension, path: seq<string>, low: nat, high: nat, starts: seq<Event>)
    requires group.Group? && EachOnceBetween(w, group.kind, group.members, path, low, high, starts)
    ensures EachOnce(w, group, path, starts)
  {
    forall e | e in starts ensures StartsALeaf(w, group, path, e) {
      assert StartsAMember(w, group.kind, group.members, path, low, high, e);
    }
  }

  /** However the components behave, a tree starts only its leaves, each at most once. */
  lemma {:induction false} TreeStartsOnce(rt: Runtime, scope: Scope, behave: Behaviour, authored: seq<Component>,
                                          ext: Extension, path: seq<string>)
    requires WellFormed(ext)
    ensures var w := Recorded(rt, scope, behave, authored);
            EachOnce(w, ext, path, StartsIn(MeaningOf(w, ext, path).events))
    decreases ext, 1, 0
  {
    var w := Recorded(rt, scope, behave, authored);
    match ext
    case Leaf(_, _, _, _, _) => LeafStarts(rt, scope, behave, authored, ext, path);
    case Group(_, kind, members, selection, predicates, default) =>
      match kind {
        case SequenceOf =>
          SequenceStartsOnce(rt, scope, behave, authored, members, 0, path);
          StartsOfGroup(w, ext, path, 0, |members|, StartsIn(MeaningOf(w, ext, path).events));
        case ParallelOf =>
          EachStartsOnce(rt, scope, behave, authored, members, path);
          TogetherStarts(MeaningOfEach(w, members, path + ["run"]));
          StartsOfGroup(w, ext, path, 0, |members|, StartsIn(MeaningOf(w, ext, path).events));
        case ChoiceOf =>
          ChoiceStarts(rt, scope, behave, authored, ext, path);
          var chosen := Chosen(w, ext);
          if chosen.Some? {
            TreeStartsOnce(rt, scope, behave, authored, members[chosen.value], path + [Member(chosen.value)]);
            StartsOfOne(w, kind, members, path, chosen.value, StartsIn(MeaningOf(w, ext, path).events));
            StartsOfGroup(w, ext, path, chosen.value, chosen.value + 1, StartsIn(MeaningOf(w, ext, path).events));
          }
      }
  }

  /** A leaf starts its target once with its bound inputs, or nothing if an input cannot be bound. */
  lemma LeafStarts(rt: Runtime, scope: Scope, behave: Behaviour, authored: seq<Component>, leaf: Extension,
                   path: seq<string>)
    requires leaf.Leaf?
    ensures var w := Recorded(rt, scope, behave, authored);
            var found, args := Targets(authored, leaf), FetchAll(rt, scope, LeafInputs(leaf.bindings));
            StartsIn(MeaningOf(w, leaf, path).events)
            == if found == [] || args.None? then [] else [Started(found[0].ref, args.value, path + ["run"])]
  {
    var found, args := Targets(authored, leaf), FetchAll(rt, scope, LeafInputs(leaf.bindings));
    if found != [] && args.Some? {
      var e := Started(found[0].ref, args.value, path + ["run"]);
      assert StartsIn([e]) == StartsIn([e][..0]) + [e];
    }
  }

  lemma {:induction false} SequenceStartsOnce(rt: Runtime, scope: Scope, behave: Behaviour, authored: seq<Component>,
                                              members: seq<Extension>, i: nat, path: seq<string>)
    requires i <= |members| && forall m | m in members :: WellFormed(m)
    ensures var w := Recorded(rt, scope, behave, authored);
            EachOnceBetween(w, SequenceOf, members, path, i, |members|,
                            StartsIn(MeaningFrom(w, members, i, path).events))
    decreases members, 0, |members| - i
  {
    hide EachOnceBetween, EachOnce;
    var w := Recorded(rt, scope, behave, authored);
    if i == |members| {
      NoStarts(w, SequenceOf, members, path, i, i);
    } else {
      var r := MeaningOf(w, members[i], path + [Member(i)]);
      TreeStartsOnce(rt, scope, behave, authored, members[i], path + [Member(i)]);
      StartsOfOne(w, SequenceOf, members, path, i, StartsIn(r.events));
      if r.outcome == SUCCEEDED {
        SequenceStartsOnce(rt, scope, behave, authored, members, i + 1, path);
        var rest := MeaningFrom(w, members, i + 1, path);
        StartsInJoin(r.events, rest.events);
        StartsJoin(w, SequenceOf, members, path, i, i + 1, |members|, StartsIn(r.events), StartsIn(rest.events));
      } else {
        NoStarts(w, SequenceOf, members, path, i + 1, |members|);
        StartsJoin(w, SequenceOf, members, path, i, i + 1, |members|, StartsIn(r.events), []);
        assert StartsIn(r.events) + [] == StartsIn(r.events);
      }
    }
  }

  lemma NoStarts(w: World, kind: Kind, members: seq<Extension>, path: seq<string>, low: nat, high: nat)
    ensures EachOnceBetween(w, kind, members, path, low, high, [])
  {
  }

  lemma {:induction false} EachStartsOnce(rt: Runtime, scope: Scope, behave: Behaviour, authored: seq<Component>,
                                          members: seq<Extension>, path: seq<string>)
    requires forall m | m in members :: WellFormed(m)
    ensures var w := Recorded(rt, scope, behave, authored);
            var starts := StartsInEach(Histories(MeaningOfEach(w, members, path + ["run"])));
            EachOnceBetween(w, ParallelOf, members, path, 0, |members|, starts)
    decreases members, 0, 0
  {
    hide EachOnceBetween, EachOnce;
    var w := Recorded(rt, scope, behave, authored);
    if members == [] {
      NoStarts(w, ParallelOf, members, path, 0, 0);
    } else {
      var n := |members| - 1;
      var front := members[..n];
      EachStartsOnce(rt, scope, behave, authored, front, path);
      TreeStartsOnce(rt, scope, behave, authored, members[n], path + ["run"] + [Member(n)]);
      var before, last := MeaningOfEach(w, front, path + ["run"]),
        MeaningOf(w, members[n], path + ["run"] + [Member(n)]);
      HistoriesJoin(before, last);
      MoreMembers(w, ParallelOf, front, members, path, StartsInEach(Histories(before)));
      StartsOfOne(w, ParallelOf, members, path, n, StartsIn(last.events));
      StartsJoin(w, ParallelOf, members, path, 0, n, n + 1, StartsInEach(Histories(before)), StartsIn(last.events));
    }
  }

  lemma MoreMembers(w: World, kind: Kind, front: seq<Extension>, members: seq<Extension>, path: seq<string>,
                    starts: seq<Event>)
    requires front <= members && EachOnceBetween(w, kind, front, path, 0, |front|, starts)
    ensures EachOnceBetween(w, kind, members, path, 0, |front|, starts)
  {
    forall e | e in starts ensures StartsAMember(w, kind, members, path, 0, |front|, e) {
      assert StartsAMember(w, kind, front, path, 0, |front|, e);
      var i :| 0 <= i < |front| && StartsALeaf(w, front[i], MemberPath(kind, path, i), e);
      assert members[i] == front[i];
    }
  }

  lemma HistoriesJoin(runs: seq<Run>, last: Run)
    ensures StartsInEach(Histories(runs + [last])) == StartsInEach(Histories(runs)) + StartsIn(last.events)
  {
    var all := Histories(runs + [last]);
    assert all[..|all| - 1] == Histories(runs);
    assert all[|all| - 1] == History(last.events);
  }

  lemma TogetherStarts(runs: seq<Run>)
    ensures StartsIn([Together(Histories(runs))]) == StartsInEach(Histories(runs))
  {
    var e := Together(Histories(runs));
    assert [e][..0] == [];
    assert StartsIn([e]) == StartsIn([e][..0]) + StartsOf(e);
  }

  /** The member a choice runs, if the selection rule gives one. */
  function Chosen(w: World, group: Extension): (r: Option<nat>)
    requires WellFormed(group) && group.Group? && group.kind == ChoiceOf
    ensures r.Some? ==> r.value < |group.members|
  {
    match Select(group.selection, EvalEach(w.rt, w.scope, group.predicates))
    case Branch(i) => if i < |group.members| then Some(i) else None
    case Default => Some(group.default)
    case _ => None
  }

  /** A choice starts what its chosen member starts and nothing of the others. */
  lemma ChoiceStarts(rt: Runtime, scope: Scope, behave: Behaviour, authored: seq<Component>, group: Extension,
                     path: seq<string>)
    requires WellFormed(group) && group.Group? && group.kind == ChoiceOf
    ensures var w := Recorded(rt, scope, behave, authored);
            MeaningOf(w, group, path).events
            == match Chosen(w, group)
               case None => []
               case Some(i) => MeaningOf(w, group.members[i], path + [Member(i)]).events
  {
  }

  // ----- The order in a sequence ---------------------------------------------------------------------

  /** From member `i` on, the members before `n` succeed, and member `n`, if there is one, does not. */
  ghost predicate StopsAt(w: World, members: seq<Extension>, i: nat, path: seq<string>, n: nat)
    requires forall m | m in members :: WellFormed(m)
  {
    && i <= n <= |members|
    && (forall k | i <= k < n :: MeaningOf(w, members[k], path + [Member(k)]).outcome == SUCCEEDED)
    && (n < |members| ==> MeaningOf(w, members[n], path + [Member(n)]).outcome != SUCCEEDED)
  }

  /** What these members start, one after the other. */
  function StartsFrom(w: World, members: seq<Extension>, low: nat, high: nat, path: seq<string>): seq<Event>
    requires high <= |members| && forall m | m in members :: WellFormed(m)
    decreases high - low
  {
    if low >= high then []
    else StartsIn(MeaningOf(w, members[low], path + [Member(low)]).events) + StartsFrom(w, members, low + 1, high, path)
  }

  /** The run of a sequence that stops at member `n`, or succeeds if there is none. */
  ghost predicate StoppedAt(w: World, members: seq<Extension>, i: nat, path: seq<string>, run: Run, n: nat)
    requires forall m | m in members :: WellFormed(m)
  {
    && StopsAt(w, members, i, path, n)
    && run.outcome == (if n == |members| then SUCCEEDED else MeaningOf(w, members[n], path + [Member(n)]).outcome)
    && StartsIn(run.events) == StartsFrom(w, members, i, if n == |members| then n else n + 1, path)
  }

  /** A sequence starts what its members start, in their order, up to and including the first that does not succeed. */
  ghost predicate StartsInOrder(w: World, members: seq<Extension>, i: nat, path: seq<string>, run: Run)
    requires forall m | m in members :: WellFormed(m)
  {
    exists n: nat :: StoppedAt(w, members, i, path, run, n)
  }

  lemma {:induction false} SequenceStartsInOrder(w: World, members: seq<Extension>, i: nat, path: seq<string>)
    requires i <= |members| && forall m | m in members :: WellFormed(m)
    ensures StartsInOrder(w, members, i, path, MeaningFrom(w, members, i, path))
    decreases |members| - i
  {
    hide MeaningOf, StartsIn;
    var run := MeaningFrom(w, members, i, path);
    if i == |members| {
      NothingStarts();
      assert StoppedAt(w, members, i, path, run, i);
    } else {
      var r := MeaningOf(w, members[i], path + [Member(i)]);
      if r.outcome == SUCCEEDED {
        SequenceStartsInOrder(w, members, i + 1, path);
        var rest := MeaningFrom(w, members, i + 1, path);
        StartsInJoin(r.events, rest.events);
        var n: nat :| StoppedAt(w, members, i + 1, path, rest, n);
        assert StoppedAt(w, members, i, path, run, n);
      } else {
        assert StartsFrom(w, members, i + 1, i + 1, path) == [];
        assert StoppedAt(w, members, i, path, run, i);
      }
    }
  }

  lemma NothingStarts()
    ensures StartsIn([]) == []
  {
  }

  // ----- What the generated workflows start -------------------------------------------------------------

  /**
   Stepping the generated stage graphs of a group starts only targets of its
   leaves, with their bound inputs, each at most once and at the call path of
   its leaf; a sequence starts its members in order until one does not succeed.
   */
  lemma CompiledGroupStartsOnce(c: Compiler, rt: Runtime, scope: Scope, authored: seq<Component>,
                                listed: seq<Component>,
                                all: seq<Component>, behave: Behaviour, ext: Extension, path: seq<string>)
    requires RunsOwn(rt, Recording(behave), authored) && SettlesAll(rt) && Linked(c, authored, all) && listed <= all
    requires Listed(c, Recorded(rt, scope, behave, authored), listed, ext, all)
    ensures var (ref, final) := Lower(c, Fresh(listed), ext).value;
            var args, w := FetchAll(rt, scope, final.external), Recorded(rt, scope, behave, authored);
            args.Some? ==>
              var run := Execute(rt, all, |authored|, Recording(behave))(ref, args.value, path);
              && EachOnce(w, ext, path, StartsIn(run.events))
              && (ext.Group? && ext.kind == SequenceOf ==> StartsInOrder(w, ext.members, 0, path, run))
  {
    hide Lower, Linked, RunsOwn, SettlesAll, Execute, EachOnce, StartsInOrder, AllAuthored, FetchAll;
    CompiledGroupRunsAsWritten(c, rt, scope, authored, listed, all, Recording(behave), ext, path);
    TreeStartsOnce(rt, scope, behave, authored, ext, path);
    if ext.Group? && ext.kind == SequenceOf {
      SequenceStartsInOrder(Recorded(rt, scope, behave, authored), ext.members, 0, path);
    }
  }
}
