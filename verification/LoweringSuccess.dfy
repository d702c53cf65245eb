/**
 When the compiler accepts a group: exactly when its bindings are in scope, its
 lifted keys are apart and its targets are found.
 */
module LoweringSuccess {
  import opened Prelude
  import opened Flow
  import opened Extensions
  import opened Lowering
  import opened LoweringProof
  import opened LoweringTheorems
  import opened LoweringFacts

  /** The binding names an input or a typed stage output of the root, and a projection states its schema. */
  ghost predicate InScope(c: Compiler, authored: seq<Component>, b: Binding) {
    b.Bound? && Readable(c.root.inputs, c.root.stages, authored, b)
  }

  /** Different bindings are lifted under different keys, also from those lifted before. */
  predicate KeysApart(c: Compiler, external: map<string, Binding>, sources: set<Binding>)
    requires forall b | b in sources :: b.Bound?
  {
    && (forall b | b in sources && LiftKey(c, b) in external :: external[LiftKey(c, b)] == b)
    && forall a, b | a in sources && b in sources && LiftKey(c, a) == LiftKey(c, b) :: a == b
  }

  ghost predicate Liftable(c: Compiler, authored: seq<Component>, external: map<string, Binding>,
                           sources: set<Binding>) {
    (forall b | b in sources :: InScope(c, authored, b)) && KeysApart(c, external, sources)
  }

  /** Every leaf names exactly one authored component, all of whose outcomes it routes. */
  ghost predicate TargetsFit(authored: seq<Component>, ext: Extension) {
    match ext
    case Leaf(_, _, _, _, _) => exists t: nat :: OneTarget(authored, ext, t) && Routed(ext, authored[t])
    case Group(_, _, members, _, _, _) => forall m | m in members :: TargetsFit(authored, m)
  }

  /** The root's namespace leaves room for a generated identity. */
  ghost predicate IdFits(c: Compiler) {
    exists namespace :: IsNamespace(c.root.id, namespace) && |namespace| + 10 + 32 <= 128
  }

  lemma IdFitsIs(c: Compiler, ext: Extension)
    ensures IdFits(c) <==> WrapperId(c, ext).Ok?
  {
    NamespaceIs(c.root.id);
    WrapperIdIs(c, ext, Namespace(c.root.id));
  }

  lemma TargetsFitLeaf(authored: seq<Component>, leaf: Extension)
    requires leaf.Leaf?
    ensures TargetsFit(authored, leaf) <==> FindTarget(authored, leaf).Ok?
  {
    hide OneTarget, Routed, RoutesAre;
    TargetFoundExactlyWhen(authored, leaf);
  }

  /** No leaf calls a workflow by the short name of a generated one. */
  ghost predicate NamesNoWrapper(c: Compiler, ext: Extension) {
    match ext
    case Leaf(_, _, call, _, _) =>
      forall other | WrapperId(c, other).Ok? :: ShortName(WrapperId(c, other).value) != call
    case Group(_, _, members, _, _, _) => forall m | m in members :: NamesNoWrapper(c, m)
  }

  // ----- What generated components add ---------------------------------------------------------

  ghost predicate Generated(c: Compiler, component: Component) {
    && component.kind == "workflow" && component.name == "" && component.doc.outputs == map[]
    && exists other :: WrapperId(c, other) == Ok(component.ref.id)
  }

  /** The list is the authored components followed by generated ones. */
  ghost predicate Beyond(c: Compiler, authored: seq<Component>, components: seq<Component>) {
    && authored <= components
    && forall j | |authored| <= j < |components| :: Generated(c, components[j])
  }

  lemma {:induction false} SameOutputs(c: Compiler, authored: seq<Component>, components: seq<Component>,
                                       stage: RootStage, port: string)
    requires Beyond(c, authored, components)
    ensures FindOutput(components, stage, port) == FindOutput(authored, stage, port)
  {
    if |components| == |authored| {
      assert components == authored;
    } else {
      assert Generated(c, components[|components| - 1]);
      SameOutputs(c, authored, components[..|components| - 1], stage, port);
    }
  }

  lemma {:induction false} SameTargets(c: Compiler, authored: seq<Component>, components: seq<Component>,
                                       leaf: Extension)
    requires Beyond(c, authored, components) && leaf.Leaf? && NamesNoWrapper(c, leaf)
    ensures Targets(components, leaf) == Targets(authored, leaf)
  {
    if |components| == |authored| {
      assert components == authored;
    } else {
      var front, last := components[..|components| - 1], components[|components| - 1];
      assert Generated(c, last);
      SameTargets(c, authored, front, leaf);
      assert !TargetOf(last, leaf);
    }
  }

  // ----- Lifting -----------------------------------------------------------------------------------

  lemma LiftsWhen(c: Compiler, authored: seq<Component>, st: State, b: Binding)
    requires Beyond(c, authored, st.components) && b.Bound?
    ensures Lift(c, st, b).Ok? <==> Liftable(c, authored, st.external, {b})
  {
    if b.source.StageOutput? && b.source.stage in c.root.stages {
      SameOutputs(c, authored, st.components, c.root.stages[b.source.stage], b.source.port);
    }
    ReadableIs(c, authored, b);
    assert b in {b};
  }

  /** Once `r` is lifted, lifting `s` as well needs just that `s` is liftable from there. */
  lemma LiftableThen(c: Compiler, authored: seq<Component>, st: State, st1: State, r: set<Binding>, s: set<Binding>)
    requires Good(c, st1) && Lifted(c, st, st1, r) && Liftable(c, authored, st.external, r)
    ensures Liftable(c, authored, st.external, r + s) <==> Liftable(c, authored, st1.external, s)
  {
    hide Readable;
    if Liftable(c, authored, st.external, r + s) {
      forall b | b in s ensures InScope(c, authored, b) { assert b in r + s; }
      forall b | b in s && LiftKey(c, b) in st1.external ensures st1.external[LiftKey(c, b)] == b {
        var k := LiftKey(c, b);
        assert b in r + s;
        if k !in st.external { assert st1.external[k] in r + s && LiftKey(c, st1.external[k]) == k; }
      }
      forall a, b | a in s && b in s && LiftKey(c, a) == LiftKey(c, b) ensures a == b
      { assert a in r + s && b in r + s; }
    }
    if Liftable(c, authored, st1.external, s) {
      forall b | b in r + s ensures InScope(c, authored, b) { }
      forall b | b in r + s && LiftKey(c, b) in st.external ensures st.external[LiftKey(c, b)] == b {
        assert LiftKey(c, b) in st1.external;
      }
      forall a, b | a in r + s && b in r + s && LiftKey(c, a) == LiftKey(c, b) ensures a == b {
        if a in r && b in r { assert st1.external[LiftKey(c, a)] == a && st1.external[LiftKey(c, b)] == b; }
        else if a in r { assert st1.external[LiftKey(c, a)] == a; }
        else if b in r { assert st1.external[LiftKey(c, b)] == b; }
      }
    }
  }

  lemma LiftableLess(c: Compiler, authored: seq<Component>, external: map<string, Binding>, r: set<Binding>,
                     s: set<Binding>)
    requires Liftable(c, authored, external, r + s)
    ensures Liftable(c, authored, external, r)
  {
    hide Readable;
    forall b | b in r ensures InScope(c, authored, b) { assert b in r + s; }
    forall b | b in r && LiftKey(c, b) in external ensures external[LiftKey(c, b)] == b { assert b in r + s; }
    forall a, b | a in r && b in r && LiftKey(c, a) == LiftKey(c, b) ensures a == b { assert a in r + s && b in r + s; }
  }

  lemma {:induction false} BindingsLiftWhen(c: Compiler, authored: seq<Component>, st: State,
                                            bs: seq<(string, Binding)>)
    requires Good(c, st) && Beyond(c, authored, st.components)
    ensures LiftBindings(c, st, bs).Ok? <==> Liftable(c, authored, st.external, BindingReads(bs))
  {
    if bs != [] {
      var front, last := bs[..|bs| - 1], bs[|bs| - 1].1;
      var r, s := BindingReads(front), if last.Bound? then {last} else {};
      BindingsLiftWhen(c, authored, st, front);
      if LiftBindings(c, st, front).Ok? {
        BindingsLift(c, st, front);
        LiftBindingsKeep(c, st, front);
        var st1 := LiftBindings(c, st, front).value.1;
        LiftableThen(c, authored, st, st1, r, s);
        if last.Bound? { LiftsWhen(c, authored, st1, last); }
      } else if Liftable(c, authored, st.external, r + s) {
        LiftableLess(c, authored, st.external, r, s);
      }
    }
  }

  lemma FieldLiftsWhen(c: Compiler, authored: seq<Component>, st: State, ref: FieldRef)
    requires Beyond(c, authored, st.components)
    ensures LiftField(c, st, ref).Ok? <==> Liftable(c, authored, st.external, FieldReads(ref))
    ensures LiftField(c, st, ref).Ok? ==> LiftField(c, st, ref).value.1.components == st.components
  {
    if !ref.source.OtherSource? {
      LiftsWhen(c, authored, st, Bound(ref.source, None));
    }
  }

  lemma OperandLiftsWhen(c: Compiler, authored: seq<Component>, st: State, operand: Operand)
    requires Beyond(c, authored, st.components)
    ensures LiftOperand(c, st, operand).Ok? <==> Liftable(c, authored, st.external, OperandReads(operand))
    ensures LiftOperand(c, st, operand).Ok? ==> LiftOperand(c, st, operand).value.1.components == st.components
  {
    if operand.FieldOperand? { FieldLiftsWhen(c, authored, st, operand.ref); }
  }

  lemma {:induction false} PredicateLiftsWhen(c: Compiler, authored: seq<Component>, st: State, p: Predicate)
    requires Good(c, st) && Beyond(c, authored, st.components)
    ensures LiftPredicate(c, st, p).Ok? <==> Liftable(c, authored, st.external, PredicateReads(p))
    ensures LiftPredicate(c, st, p).Ok? ==> LiftPredicate(c, st, p).value.1.components == st.components
    decreases p, 1
  {
    match p
    case Compare(_, left, right) =>
      var r, s := OperandReads(left), OperandReads(right);
      OperandLiftsWhen(c, authored, st, left);
      if LiftOperand(c, st, left).Ok? {
        OperandLifts(c, st, left);
        var st1 := LiftOperand(c, st, left).value.1;
        LiftableThen(c, authored, st, st1, r, s);
        OperandLiftsWhen(c, authored, st1, right);
      } else if Liftable(c, authored, st.external, r + s) {
        LiftableLess(c, authored, st.external, r, s);
      }
    case Exists(ref) => FieldLiftsWhen(c, authored, st, ref);
    case Not(arg) => PredicateLiftsWhen(c, authored, st, arg);
    case All(args) => PredicatesLiftWhen(c, authored, st, args);
    case Any(args) => PredicatesLiftWhen(c, authored, st, args);
  }

  lemma {:induction false} PredicatesLiftWhen(c: Compiler, authored: seq<Component>, st: State, ps: seq<Predicate>)
    requires Good(c, st) && Beyond(c, authored, st.components)
    ensures LiftPredicates(c, st, ps).Ok? <==> Liftable(c, authored, st.external, AllPredicateReads(ps))
    ensures LiftPredicates(c, st, ps).Ok? ==> LiftPredicates(c, st, ps).value.1.components == st.components
    decreases ps, 0
  {
    if ps != [] {
      var front, last := ps[..|ps| - 1], ps[|ps| - 1];
      var r, s := AllPredicateReads(front), PredicateReads(last);
      PredicatesLiftWhen(c, authored, st, front);
      if LiftPredicates(c, st, front).Ok? {
        PredicatesLift(c, st, front);
        var st1 := LiftPredicates(c, st, front).value.1;
        LiftableThen(c, authored, st, st1, r, s);
        PredicateLiftsWhen(c, authored, st1, last);
      } else if Liftable(c, authored, st.external, r + s) {
        LiftableLess(c, authored, st.external, r, s);
      }
    }
  }

  // ----- Lowering ------------------------------------------------------------------------------------

  lemma SealsWhen(c: Compiler, authored: seq<Component>, st: State, ext: Extension, entry: string,
                  stages: map<string, Stage>)
    requires Beyond(c, authored, st.components)
    ensures Seal(c, st, ext, entry, stages).Ok? <==> IdFits(c)
    ensures Seal(c, st, ext, entry, stages).Ok? ==>
              Beyond(c, authored, Seal(c, st, ext, entry, stages).value.1.components)
  {
    IdFitsIs(c, ext);
    if IdFits(c) {
      var (ref, st1) := Seal(c, st, ext, entry, stages).value;
      if |st1.components| > |st.components| {
        assert WrapperId(c, ext) == Ok(ref.id);
        assert Generated(c, st1.components[|st.components|]);
      }
    }
  }

  ghost predicate Fits(c: Compiler, authored: seq<Component>, st: State, ext: Extension) {
    Liftable(c, authored, st.external, Reads(ext)) && TargetsFit(authored, ext) && IdFits(c)
  }

  lemma {:induction false} LowersWhen(c: Compiler, authored: seq<Component>, st: State, ext: Extension)
    requires Injective(c) && Good(c, st) && Beyond(c, authored, st.components) && NamesNoWrapper(c, ext)
    ensures Lower(c, st, ext).Ok? <==> Fits(c, authored, st, ext)
    ensures Lower(c, st, ext).Ok? ==> Beyond(c, authored, Lower(c, st, ext).value.1.components)
    decreases ext, 1
  {
    hide InScope, IdFits, Liftable, Lifted, Injective, GroupWrapper;
    match ext
    case Leaf(_, _, _, bindings, _) =>
      hide TargetsFit;
      BindingsLiftWhen(c, authored, st, bindings);
      if LiftBindings(c, st, bindings).Ok? {
        LiftBindingsKeep(c, st, bindings);
        var (inputs, st1) := LiftBindings(c, st, bindings).value;
        SameTargets(c, authored, st1.components, ext);
        TargetsFitLeaf(authored, ext);
        if FindTarget(st1.components, ext).Ok? {
          var (target, on) := FindTarget(st1.components, ext).value;
          SealsWhen(c, authored, st1, ext, "run", ENDINGS["run" := LeafStage(ext, target, inputs, on)]);
        }
      }
    case Group(_, _, _, _, _, _) =>
      GroupsWhen(c, authored, st, ext);
      if GroupWrapper(c, st, ext).Ok? {
        var (entry, stages, before) := GroupWrapper(c, st, ext).value;
        SealsWhen(c, authored, before, ext, entry, stages);
      }
  }

  lemma {:induction false} GroupsWhen(c: Compiler, authored: seq<Component>, st: State, group: Extension)
    requires group.Group? && Injective(c) && Good(c, st) && Beyond(c, authored, st.components)
             && NamesNoWrapper(c, group)
    ensures GroupWrapper(c, st, group).Ok? ==> Beyond(c, authored, GroupWrapper(c, st, group).value.2.components)
    ensures GroupWrapper(c, st, group).Ok? <==>
              Liftable(c, authored, st.external, Reads(group)) && TargetsFit(authored, group)
                && (group.members != [] ==> IdFits(c))
    decreases group, 0
  {
    hide Liftable, Good, Injective, Lifted, InScope, IdFits;
    var members, predicates := group.members, group.predicates;
    var r, s := MemberReads(members), AllPredicateReads(predicates);
    MembersLowerWhen(c, authored, st, members);
    if group.kind == ChoiceOf {
      if LowerMembers(c, st, members).Ok? {
        MembersLift(c, st, members);
        LowerMembersKeep(c, st, members);
        var st1 := LowerMembers(c, st, members).value.1;
        LiftableThen(c, authored, st, st1, r, s);
        PredicatesLiftWhen(c, authored, st1, predicates);
      } else if Liftable(c, authored, st.external, r + s) {
        LiftableLess(c, authored, st.external, r, s);
      }
    } else {
      assert Reads(group) == r;
    }
  }

  lemma LastMember(c: Compiler, st: State, members: seq<Extension>)
    requires members != []
    ensures var before := LowerMembers(c, st, members[..|members| - 1]);
            var all := LowerMembers(c, st, members);
            && (all.Ok? <==> before.Ok? && Lower(c, before.value.1, members[|members| - 1]).Ok?)
            && (all.Ok? ==> all.value.1 == Lower(c, before.value.1, members[|members| - 1]).value.1)
  {
  }

  ghost predicate AllFit(authored: seq<Component>, members: seq<Extension>) {
    forall m | m in members :: TargetsFit(authored, m)
  }

  lemma OneMoreFits(authored: seq<Component>, front: seq<Extension>, last: Extension)
    ensures AllFit(authored, front + [last]) <==> AllFit(authored, front) && TargetsFit(authored, last)
  {
    if AllFit(authored, front + [last]) {
      assert last in front + [last];
      forall m | m in front ensures TargetsFit(authored, m) { assert m in front + [last]; }
    }
  }

  lemma {:induction false} MembersLowerWhen(c: Compiler, authored: seq<Component>, st: State, members: seq<Extension>)
    requires Injective(c) && Good(c, st) && Beyond(c, authored, st.components)
             && forall m | m in members :: NamesNoWrapper(c, m)
    ensures LowerMembers(c, st, members).Ok? ==> Beyond(c, authored, LowerMembers(c, st, members).value.1.components)
    ensures LowerMembers(c, st, members).Ok? <==>
              && Liftable(c, authored, st.external, MemberReads(members))
              && AllFit(authored, members) && (members != [] ==> IdFits(c))
    decreases members, 0
  {
    if members != [] {
      hide Liftable, Good, Injective, Lifted, TargetsFit, AllFit, Reads, LowerMembers, Lower;
      LastMember(c, st, members);
      var front, last := members[..|members| - 1], members[|members| - 1];
      var r, s := MemberReads(front), Reads(last);
      OneMoreFits(authored, front, last);
      assert members == front + [last];
      MembersLowerWhen(c, authored, st, front);
      if LowerMembers(c, st, front).Ok? {
        MembersLift(c, st, front);
        LowerMembersKeep(c, st, front);
        var st1 := LowerMembers(c, st, front).value.1;
        LiftableThen(c, authored, st, st1, r, s);
        LowersWhen(c, authored, st1, last);
      } else if Liftable(c, authored, st.external, r + s) {
        LiftableLess(c, authored, st.external, r, s);
      }
    }
  }

  /**
   The compiler accepts a group exactly when every source it reads is in
   scope, no two different ones share a lifted key, every leaf finds its one
   target with all outcomes routed, and the root leaves room for identities.
   */
  lemma LoweringSucceedsExactlyWhen(c: Compiler, authored: seq<Component>, ext: Extension)
    requires Injective(c) && Sealed(c, authored) && NamesNoWrapper(c, ext)
    ensures Lower(c, Fresh(authored), ext).Ok? <==>
            && (forall b | b in Reads(ext) :: InScope(c, authored, b))
            && (forall a, b | a in Reads(ext) && b in Reads(ext) && LiftKey(c, a) == LiftKey(c, b) :: a == b)
            && TargetsFit(authored, ext) && IdFits(c)
  {
    hide InScope, TargetsFit, IdFits, Lower;
    LowersWhen(c, authored, Fresh(authored), ext);
  }

  // ----- Keys that meet ---------------------------------------------------------------------------------

  const STEP_REF := Ref("x:step/s", "1", "d")
  const ANY_PORT := Port("json", None)

  /** One step with two outputs. */
  function TwoOutputs(): Component {
    Component("step", STEP_REF, "s", [],
              Workflow("4", "x:step/s", "1", "", map[], map["c" := ANY_PORT, "b_c" := ANY_PORT], [],
                       "", "", "", map[], ""))
  }

  /** A root with two stages of that step, one of which is named like the beginning of an output of the other. */
  function MeetingRoot(fingerprint: Binding -> string, identity: Extension -> string,
                       digest: Workflow -> string): Compiler {
    Compiler(Root("x:root", "4", "1", "", "", map[],
                  map["a_b" := RootStage("step", STEP_REF), "a" := RootStage("step", STEP_REF)]),
             fingerprint, identity, digest)
  }

  /** A contribution that reads an output of each. */
  function MeetingLeaf(): Extension {
    Leaf(Head("leaf", "", "leaf", "", "a", "a_b", map[], ""), "s", "",
         [("p", Bound(StageOutput("a_b", "c"), None)), ("q", Bound(StageOutput("a", "b_c"), None))], [])
  }

  lemma MeetingFits(c: Compiler)
    requires c == MeetingRoot(c.fingerprint, c.identity, c.digest)
    ensures TargetsFit([TwoOutputs()], MeetingLeaf()) && IdFits(c)
    ensures forall pair | pair in MeetingLeaf().bindings :: InScope(c, [TwoOutputs()], pair.1)
  {
    hide InScope, TargetsFit;
    assert TargetsFit([TwoOutputs()], MeetingLeaf()) by { MeetingFindsTarget(); }
    assert IsNamespace("x:root", "x");
    MeetingInScope(c, "a_b", "c");
    MeetingInScope(c, "a", "b_c");
  }

  lemma MeetingFindsTarget()
    ensures TargetsFit([TwoOutputs()], MeetingLeaf())
  {
    assert OneTarget([TwoOutputs()], MeetingLeaf(), 0);
  }

  lemma MeetingInScope(c: Compiler, stage: string, port: string)
    requires c == MeetingRoot(c.fingerprint, c.identity, c.digest)
    requires stage in {"a_b", "a"} && port in {"c", "b_c"}
    ensures InScope(c, [TwoOutputs()], Bound(StageOutput(stage, port), None))
  {
    assert "a_b" != "a" && "b_c" != "c" by { assert |"a_b"| != |"a"| && |"b_c"| != |"c"|; }
    assert Declares([TwoOutputs()], c.root.stages[stage], port, 0);
  }

  /**
   A port name is joined to its stage name, so the outputs of two different
   stages can meet under one key. The contribution that reads both is
   refused for that alone: each source is in scope, its target is found, and
   there is room for an identity.
   */
  lemma JoinedNamesMeet(fingerprint: Binding -> string, identity: Extension -> string, digest: Workflow -> string)
    ensures var c, authored, leaf := MeetingRoot(fingerprint, identity, digest), [TwoOutputs()], MeetingLeaf();
            && TargetsFit(authored, leaf) && IdFits(c)
            && (forall pair | pair in leaf.bindings :: InScope(c, authored, pair.1))
            && leaf.bindings[0].1 != leaf.bindings[1].1
            && LiftKey(c, leaf.bindings[0].1) == LiftKey(c, leaf.bindings[1].1)
            && Lower(c, Fresh(authored), leaf) == Refused("project_composition_binding_scope")
  {
    hide Readable, TargetsFit, IdFits, LiftBindings;
    var c, authored, leaf := MeetingRoot(fingerprint, identity, digest), [TwoOutputs()], MeetingLeaf();
    MeetingFits(c);
    assert leaf.bindings[0] in leaf.bindings && leaf.bindings[1] in leaf.bindings;
    assert "a_b" != "a" by { assert |"a_b"| != |"a"|; }
    assert LiftKey(c, leaf.bindings[0].1) == "stage_a_b_c" == LiftKey(c, leaf.bindings[1].1);
    SecondIsRefused(c, authored, leaf.bindings);
  }

  /** The second of two different bindings of one key cannot be lifted. */
  lemma SecondIsRefused(c: Compiler, authored: seq<Component>, bs: seq<(string, Binding)>)
    requires |bs| == 2 && bs[0].1.Bound? && bs[1].1.Bound? && bs[0].1 != bs[1].1
    requires LiftKey(c, bs[0].1) == LiftKey(c, bs[1].1)
    requires InScope(c, authored, bs[0].1) && InScope(c, authored, bs[1].1)
    ensures LiftBindings(c, Fresh(authored), bs) == Refused("project_composition_binding_scope")
  {
    hide Readable, Lift, LiftKey;
    var first := bs[..1];
    assert first[..0] == [] && bs[..0] == [] && bs[..|bs| - 1] == first;
    assert LiftBindings(c, Fresh(authored), []) == Ok((map[], Fresh(authored)));
    LiftedAs(c, Fresh(authored), bs[0].1);
    LiftedAs(c, Lift(c, Fresh(authored), bs[0].1).value.1, bs[1].1);
  }
}
