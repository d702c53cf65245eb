/** The results about lowering: meaning, data flow, linking, and an interpreter that runs the output. */
module LoweringTheorems {
  import opened Prelude
  import opened Flow
  import opened Extensions
  import opened Lowering
  import opened Meaning
  import opened LoweringProof

  /** The compiler starts every group with nothing lifted. */
  function Fresh(components: seq<Component>): State {
    State(map[], map[], components)
  }

  /**
   The world's own components come first, then whatever was listed before this
   group, and `all` is the finished list.
   */
  ghost predicate Listed(c: Compiler, w: World, listed: seq<Component>, ext: Extension, all: seq<Component>) {
    && Injective(c) && Sealed(c, all) && w.authored <= listed
    && WellFormed(ext) && AllAuthored(ext, w.authored)
    && Lower(c, Fresh(listed), ext).Ok? && Lower(c, Fresh(listed), ext).value.1.components <= all
  }

  lemma ListedIsSealed(c: Compiler, w: World, listed: seq<Component>, ext: Extension, all: seq<Component>)
    requires Injective(c) && Sealed(c, all) && listed <= all
    ensures Good(c, Fresh(listed))
  {
    forall j | 0 <= j < |listed| ensures listed[j].ref.digest == (c.digest)(listed[j].doc) {
      assert listed[j] == all[j];
    }
  }

  /**
   Whenever the outer call can bind the lifted inputs in the root's scope,
   running the generated workflows is evaluating the tree its author wrote:
   the same result, the same invocations with the same inputs in the same
   order, for every leaf behaviour, predicate value and settlement order,
   whatever else was generated before and after.
   */
  lemma LoweringPreservesMeaning(c: Compiler, w: World, listed: seq<Component>, ext: Extension, all: seq<Component>,
                                 path: seq<string>)
    requires Listed(c, w, listed, ext, all) && listed <= all
    requires SettlesAll(w.rt) && Realises(w.rt, w.invoke, all)
    ensures var (ref, final) := Lower(c, Fresh(listed), ext).value;
            var args := FetchAll(w.rt, w.scope, final.external);
            args.Some? ==> (w.invoke)(ref, args.value, path) == MeaningOf(w, ext, path)
  {
    hide MeaningOf, Implements, Injective, Realises, SettlesAll, AllAuthored, WellFormed, Lower;
    var st := Fresh(listed);
    ListedIsSealed(c, w, listed, ext, all);
    LowerKeeps(c, st, ext);
    var (ref, final) := Lower(c, st, ext).value;
    var finished := final.(components := all);
    assert Good(c, finished) && Extends(final, finished);
    LowerImplements(c, w, st, ext, finished);
    Calls(w, finished, ref, ext, final, path);
  }

  lemma Calls(w: World, finished: State, ref: Ref, ext: Extension, final: State, path: seq<string>)
    requires WellFormed(ext) && Implements(w, finished, ref, ext) && Within(final, ref) && Extends(final, finished)
    requires finished.external == final.external && final.external.Keys == final.ports.Keys
    ensures var args := FetchAll(w.rt, w.scope, final.external);
            args.Some? ==> (w.invoke)(ref, args.value, path) == MeaningOf(w, ext, path)
  {
    hide MeaningOf;
    var args := FetchAll(w.rt, w.scope, final.external);
    if args.Some? {
      var doc :| Holds(final.components, ref, doc) && doc.inputs.Keys <= final.ports.Keys;
      HoldsMore(final, finished, ref, doc);
      assert Fits(w, finished, doc.inputs.Keys, args.value);
    }
  }

  // ----- Data flow ----------------------------------------------------------------------

  function OperandReads(operand: Operand): set<Binding> {
    if operand.FieldOperand? then FieldReads(operand.ref) else {}
  }

  function FieldReads(ref: FieldRef): set<Binding> {
    if ref.source.OtherSource? then {} else {Bound(ref.source, None)}
  }

  function PredicateReads(p: Predicate): set<Binding>
    decreases p, 1
  {
    match p
    case Compare(_, left, right) => OperandReads(left) + OperandReads(right)
    case Exists(ref) => FieldReads(ref)
    case Not(arg) => PredicateReads(arg)
    case All(args) => AllPredicateReads(args)
    case Any(args) => AllPredicateReads(args)
  }

  function AllPredicateReads(ps: seq<Predicate>): set<Binding>
    decreases ps, 0
  {
    if ps == [] then {} else AllPredicateReads(ps[..|ps| - 1]) + PredicateReads(ps[|ps| - 1])
  }

  function BindingReads(bs: seq<(string, Binding)>): set<Binding> {
    if bs == [] then {}
    else BindingReads(bs[..|bs| - 1]) + if bs[|bs| - 1].1.Bound? then {bs[|bs| - 1].1} else {}
  }

  /** Every source binding that occurs anywhere in a contribution, its predicates included. */
  function Reads(ext: Extension): set<Binding>
    decreases ext, 1
  {
    match ext
    case Leaf(_, _, _, bindings, _) => BindingReads(bindings)
    case Group(_, kind, members, _, predicates, _) =>
      MemberReads(members) + if kind == ChoiceOf then AllPredicateReads(predicates) else {}
  }

  function MemberReads(members: seq<Extension>): set<Binding>
    decreases members, 0
  {
    if members == [] then {} else MemberReads(members[..|members| - 1]) + Reads(members[|members| - 1])
  }

  /** Going from `st` to `st1` lifted exactly the bindings in `sources`, each under its own key. */
  ghost predicate Lifted(c: Compiler, st: State, st1: State, sources: set<Binding>) {
    && Extends(st, st1)
    && (forall b | b in sources :: b.Bound? && LiftKey(c, b) in st1.external && st1.external[LiftKey(c, b)] == b)
    && (forall k | k in st1.external :: k in st.external || st1.external[k] in sources)
  }

  lemma LiftedThen(c: Compiler, a: State, b: State, d: State, r: set<Binding>, s: set<Binding>)
    requires Lifted(c, a, b, r) && Lifted(c, b, d, s)
    ensures Lifted(c, a, d, r + s)
  {
    ExtendsTransitive(a, b, d);
  }

  lemma {:induction false} BindingsLift(c: Compiler, st: State, bs: seq<(string, Binding)>)
    requires Good(c, st) && LiftBindings(c, st, bs).Ok?
    ensures Lifted(c, st, LiftBindings(c, st, bs).value.1, BindingReads(bs))
  {
    if bs != [] {
      var front, last := bs[..|bs| - 1], bs[|bs| - 1];
      BindingsLift(c, st, front);
      LiftBindingsKeep(c, st, front);
      var st1 := LiftBindings(c, st, front).value.1;
      LiftKeeps(c, st1, last.1);
      var st2 := Lift(c, st1, last.1).value.1;
      var s := if last.1.Bound? then {last.1} else {};
      assert Lifted(c, st1, st2, s);
      LiftedThen(c, st, st1, st2, BindingReads(front), s);
    }
  }

  lemma FieldLifts(c: Compiler, st: State, ref: FieldRef)
    requires Good(c, st) && LiftField(c, st, ref).Ok?
    ensures Good(c, LiftField(c, st, ref).value.1) && Lifted(c, st, LiftField(c, st, ref).value.1, FieldReads(ref))
  {
    if !ref.source.OtherSource? {
      LiftKeeps(c, st, Bound(ref.source, None));
    }
  }

  lemma OperandLifts(c: Compiler, st: State, operand: Operand)
    requires Good(c, st) && LiftOperand(c, st, operand).Ok?
    ensures Good(c, LiftOperand(c, st, operand).value.1)
    ensures Lifted(c, st, LiftOperand(c, st, operand).value.1, OperandReads(operand))
  {
    if operand.FieldOperand? { FieldLifts(c, st, operand.ref); }
  }

  lemma {:induction false} PredicateLifts(c: Compiler, st: State, p: Predicate)
    requires Good(c, st) && LiftPredicate(c, st, p).Ok?
    ensures Good(c, LiftPredicate(c, st, p).value.1)
    ensures Lifted(c, st, LiftPredicate(c, st, p).value.1, PredicateReads(p))
    decreases p, 1
  {
    match p
    case Compare(_, left, right) =>
      OperandLifts(c, st, left);
      var st1 := LiftOperand(c, st, left).value.1;
      OperandLifts(c, st1, right);
      LiftedThen(c, st, st1, LiftOperand(c, st1, right).value.1, OperandReads(left), OperandReads(right));
    case Exists(ref) => FieldLifts(c, st, ref);
    case Not(arg) => PredicateLifts(c, st, arg);
    case All(args) => PredicatesLift(c, st, args);
    case Any(args) => PredicatesLift(c, st, args);
  }

  lemma {:induction false} PredicatesLift(c: Compiler, st: State, ps: seq<Predicate>)
    requires Good(c, st) && LiftPredicates(c, st, ps).Ok?
    ensures Good(c, LiftPredicates(c, st, ps).value.1)
    ensures Lifted(c, st, LiftPredicates(c, st, ps).value.1, AllPredicateReads(ps))
    decreases ps, 0
  {
    if ps != [] {
      var front, last := ps[..|ps| - 1], ps[|ps| - 1];
      PredicatesLift(c, st, front);
      var st1 := LiftPredicates(c, st, front).value.1;
      PredicateLifts(c, st1, last);
      LiftedThen(c, st, st1, LiftPredicate(c, st1, last).value.1, AllPredicateReads(front), PredicateReads(last));
    }
  }

  lemma SealLifts(c: Compiler, a: State, st: State, ext: Extension, entry: string, stages: map<string, Stage>,
                  sources: set<Binding>)
    requires Injective(c) && Good(c, st) && Seal(c, st, ext, entry, stages).Ok? && Lifted(c, a, st, sources)
    ensures Lifted(c, a, Seal(c, st, ext, entry, stages).value.1, sources)
  {
    SealKeeps(c, st, ext, entry, stages);
    ExtendsTransitive(a, st, Seal(c, st, ext, entry, stages).value.1);
  }

  lemma {:induction false} LowerLifts(c: Compiler, st: State, ext: Extension)
    requires Injective(c) && Good(c, st) && Lower(c, st, ext).Ok?
    ensures Lifted(c, st, Lower(c, st, ext).value.1, Reads(ext))
    decreases ext, 1
  {
    match ext
    case Leaf(_, _, _, bindings, _) =>
      BindingsLift(c, st, bindings);
      LiftBindingsKeep(c, st, bindings);
      var (inputs, st1) := LiftBindings(c, st, bindings).value;
      var (target, on) := FindTarget(st1.components, ext).value;
      SealLifts(c, st, st1, ext, "run", ENDINGS["run" := LeafStage(ext, target, inputs, on)], Reads(ext));
    case Group(_, kind, members, _, predicates, _) =>
      MembersLift(c, st, members);
      LowerMembersKeep(c, st, members);
      GroupSeals(c, st, ext);
      var st1 := LowerMembers(c, st, members).value.1;
      if kind == ChoiceOf {
        PredicatesLift(c, st1, predicates);
        LiftedThen(c, st, st1, LiftPredicates(c, st1, predicates).value.1, MemberReads(members),
                   AllPredicateReads(predicates));
      }
      var (entry, stages, before) := GroupWrapper(c, st, ext).value;
      SealLifts(c, st, before, ext, entry, stages, Reads(ext));
  }

  lemma {:induction false} MembersLift(c: Compiler, st: State, members: seq<Extension>)
    requires Injective(c) && Good(c, st) && LowerMembers(c, st, members).Ok?
    ensures Lifted(c, st, LowerMembers(c, st, members).value.1, MemberReads(members))
    decreases members, 0
  {
    if members != [] {
      var front, last := members[..|members| - 1], members[|members| - 1];
      MembersLift(c, st, front);
      LowerMembersKeep(c, st, front);
      var st1 := LowerMembers(c, st, front).value.1;
      LowerLifts(c, st1, last);
      LiftedThen(c, st, st1, Lower(c, st1, last).value.1, MemberReads(front), Reads(last));
    }
  }

  /**
   The outer call binds exactly the source bindings written anywhere in the
   tree, each under its own port: the port of a binding leads back to it, and
   two different bindings never share one.
   */
  lemma OuterCallBindsEverySource(c: Compiler, authored: seq<Component>, ext: Extension)
    requires Injective(c) && Sealed(c, authored) && Lower(c, Fresh(authored), ext).Ok?
    ensures var final := Lower(c, Fresh(authored), ext).value.1;
            && (forall b | b in Reads(ext) ::
                  b.Bound? && LiftKey(c, b) in final.external && final.external[LiftKey(c, b)] == b)
            && (forall k | k in final.external :: final.external[k] in Reads(ext))
            && (forall a, b | a in Reads(ext) && b in Reads(ext) :: LiftKey(c, a) == LiftKey(c, b) ==> a == b)
  {
    LowerLifts(c, Fresh(authored), ext);
  }

  // ----- Linking ----------------------------------------------------------------------------

  /** `b` reads nothing but a declared input. */
  predicate BindsWithin(b: Binding, inputs: set<string>) {
    b.Literal? || (b.source.WorkflowInput? && b.projection.None? && b.source.port in inputs)
  }

  /**
   A call from a document placed after `earlier`: its target is there, and a
   generated target gets exactly its inputs.
   */
  ghost predicate LinkOk(earlier: seq<Component>, base: nat, declared: set<string>, ref: Ref,
                         inputs: map<string, Binding>) {
    && (exists i ::
          && 0 <= i < |earlier| && earlier[i].ref == ref
          && (i < base || inputs.Keys == earlier[i].doc.inputs.Keys))
    && forall p | p in inputs :: BindsWithin(inputs[p], declared)
  }

  ghost predicate StageLinked(earlier: seq<Component>, base: nat, declared: set<string>, stage: Stage) {
    match stage
    case Invoke(_, ref, inputs, _, _) => LinkOk(earlier, base, declared, ref, inputs)
    case Parallel(branches, _, _, _) =>
      forall b | 0 <= b < |branches| :: LinkOk(earlier, base, declared, branches[b].ref, branches[b].inputs)
    case _ => true
  }

  ghost predicate StagesLinked(earlier: seq<Component>, base: nat, declared: set<string>, stages: map<string, Stage>) {
    forall id | id in stages :: StageLinked(earlier, base, declared, stages[id])
  }

  /** From `base` on, every document calls only what is listed before it. */
  ghost predicate AllLinked(components: seq<Component>, base: nat) {
    forall j | base <= j < |components| ::
      StagesLinked(components[..j], base, components[j].doc.inputs.Keys, components[j].doc.stages)
  }

  ghost predicate UniqueRefs(components: seq<Component>) {
    forall i, j | 0 <= i < j < |components| :: components[i].ref != components[j].ref
  }

  lemma MemberLinks(c: Compiler, st: State, base: nat, ref: Ref, declared: set<string>)
    requires Injective(c) && Good(c, st) && Within(st, ref) && st.ports.Keys <= declared
    ensures LinkOk(st.components, base, declared, ref, ChildBindings(st.components, ref, Offered(st.ports)))
  {
    var doc :| Holds(st.components, ref, doc) && doc.inputs.Keys <= st.ports.Keys;
    ChildBindingsAre(c, st, ref, doc);
  }

  lemma {:induction false} SequenceLinks(c: Compiler, st: State, base: nat, refs: seq<Ref>, k: nat)
    requires Injective(c) && Good(c, st) && AllWithin(st, refs) && k <= |refs|
    ensures StagesLinked(st.components, base, st.ports.Keys, SequenceStages(st.components, Offered(st.ports), refs, k))
  {
    if k > 0 {
      SequenceLinks(c, st, base, refs, k - 1);
      MemberLinks(c, st, base, refs[k - 1], st.ports.Keys);
    }
  }

  lemma {:induction false} ChoiceLinks(c: Compiler, st: State, base: nat, refs: seq<Ref>, k: nat, declared: set<string>)
    requires Injective(c) && Good(c, st) && AllWithin(st, refs) && k <= |refs| && st.ports.Keys <= declared
    ensures StagesLinked(st.components, base, declared, ChoiceStages(st.components, Offered(st.ports), refs, k))
  {
    if k > 0 {
      ChoiceLinks(c, st, base, refs, k - 1, declared);
      MemberLinks(c, st, base, refs[k - 1], declared);
    }
  }

  lemma ParallelLinks(c: Compiler, st: State, base: nat, refs: seq<Ref>)
    requires Injective(c) && Good(c, st) && AllWithin(st, refs)
    ensures StageLinked(st.components, base, st.ports.Keys,
                        ParallelStage(Branches(st.components, Offered(st.ports), refs)))
  {
    forall b | 0 <= b < |refs|
      ensures var branch := Branches(st.components, Offered(st.ports), refs)[b];
              LinkOk(st.components, base, st.ports.Keys, branch.ref, branch.inputs)
    {
      BranchesAre(st.components, Offered(st.ports), refs, b);
      MemberLinks(c, st, base, refs[b], st.ports.Keys);
    }
  }

  lemma SealLinks(c: Compiler, st: State, base: nat, ext: Extension, entry: string, stages: map<string, Stage>)
    requires base <= |st.components| && AllLinked(st.components, base) && UniqueRefs(st.components)
    requires StagesLinked(st.components, base, st.ports.Keys, stages) && Seal(c, st, ext, entry, stages).Ok?
    ensures var st1 := Seal(c, st, ext, entry, stages).value.1;
            AllLinked(st1.components, base) && UniqueRefs(st1.components)
  {
    var st1 := Seal(c, st, ext, entry, stages).value.1;
    forall j | base <= j < |st1.components|
      ensures StagesLinked(st1.components[..j], base, st1.components[j].doc.inputs.Keys, st1.components[j].doc.stages)
    {
      if j < |st.components| {
        assert st1.components[..j] == st.components[..j];
      } else {
        assert st1.components[..j] == st.components;
      }
    }
  }

  lemma LeafLinks(c: Compiler, st: State, authored: seq<Component>, leaf: Extension)
    requires leaf.Leaf? && Good(c, st) && LiftBindings(c, st, leaf.bindings).Ok?
    requires authored <= st.components && Targets(authored, leaf) != []
    requires FindTarget(LiftBindings(c, st, leaf.bindings).value.1.components, leaf).Ok?
    ensures var (inputs, st1) := LiftBindings(c, st, leaf.bindings).value;
            var (target, on) := FindTarget(st1.components, leaf).value;
            StageLinked(st1.components, |authored|, st1.ports.Keys, LeafStage(leaf, target, inputs, on))
  {
    LiftBindingsKeep(c, st, leaf.bindings);
    var (inputs, st1) := LiftBindings(c, st, leaf.bindings).value;
    TargetsPrefix(authored, st1.components, leaf);
    var target := Targets(authored, leaf)[0];
    TargetsListed(authored, leaf);
    assert target in authored;
    forall p | p in inputs ensures BindsWithin(inputs[p], st1.ports.Keys) {
      assert Carries(c, st1, inputs[p], LeafInputs(leaf.bindings)[p]);
    }
  }

  lemma {:induction false} TargetsListed(components: seq<Component>, leaf: Extension)
    requires leaf.Leaf?
    ensures forall t | t in Targets(components, leaf) :: t in components
  {
    if components != [] { TargetsListed(components[..|components| - 1], leaf); }
  }

  lemma {:induction false} LowerLinks(c: Compiler, st: State, authored: seq<Component>, ext: Extension)
    requires Injective(c) && Good(c, st) && Lower(c, st, ext).Ok?
    requires AllAuthored(ext, authored) && authored <= st.components
    requires AllLinked(st.components, |authored|) && UniqueRefs(st.components)
    ensures var st1 := Lower(c, st, ext).value.1;
            AllLinked(st1.components, |authored|) && UniqueRefs(st1.components)
    decreases ext, 1
  {
    hide AllLinked, UniqueRefs, Good, Injective, StagesLinked, LowerMembers;
    match ext
    case Leaf(_, _, _, bindings, _) =>
      LiftBindingsKeep(c, st, bindings);
      var (inputs, st1) := LiftBindings(c, st, bindings).value;
      var (target, on) := FindTarget(st1.components, ext).value;
      LeafLinks(c, st, authored, ext);
      EndingsLinked(st1.components, |authored|, st1.ports.Keys, LeafStage(ext, target, inputs, on));
      SealLinks(c, st1, |authored|, ext, "run", ENDINGS["run" := LeafStage(ext, target, inputs, on)]);
    case Group(_, _, members, _, _, _) =>
      MembersLink(c, st, authored, members);
      LowerMembersKeep(c, st, members);
      GroupLinks(c, st, |authored|, ext);
      var (entry, stages, before) := GroupWrapper(c, st, ext).value;
      SealLinks(c, before, |authored|, ext, entry, stages);
  }

  lemma EndingsLinked(earlier: seq<Component>, base: nat, declared: set<string>, stage: Stage)
    requires StageLinked(earlier, base, declared, stage)
    ensures StagesLinked(earlier, base, declared, ENDINGS["run" := stage])
  {
  }

  /** The stages of a group's wrapper call what is listed. */
  lemma GroupLinks(c: Compiler, st: State, base: nat, group: Extension)
    requires group.Group? && Injective(c) && GroupWrapper(c, st, group).Ok?
    requires var (refs, st1) := LowerMembers(c, st, group.members).value; Good(c, st1) && AllWithin(st1, refs)
    ensures var (entry, stages, before) := GroupWrapper(c, st, group).value;
            && before.components == LowerMembers(c, st, group.members).value.1.components
            && StagesLinked(before.components, base, before.ports.Keys, stages)
  {
    hide Good, Injective, AllWithin, LowerMembers, SequenceStages, ChoiceStages, Branches;
    var (refs, st1) := LowerMembers(c, st, group.members).value;
    match group.kind {
      case SequenceOf => SequenceLinks(c, st1, base, refs, |refs|);
      case ParallelOf =>
        ParallelLinks(c, st1, base, refs);
        EndingsLinked(st1.components, base, st1.ports.Keys,
                      ParallelStage(Branches(st1.components, Offered(st1.ports), refs)));
      case ChoiceOf => ChoiceGroupLinks(c, st1, base, refs, group);
    }
  }

  lemma ChoiceGroupLinks(c: Compiler, st: State, base: nat, refs: seq<Ref>, group: Extension)
    requires group.Group? && Injective(c) && Good(c, st) && AllWithin(st, refs)
             && LiftPredicates(c, st, group.predicates).Ok?
    ensures var (ps, before) := LiftPredicates(c, st, group.predicates).value;
            && before.components == st.components
            && StagesLinked(st.components, base, before.ports.Keys,
                            ChoiceStages(st.components, Offered(st.ports), refs, |refs|)
                              ["run" := ChoiceStage(group, ps)])
  {
    hide Injective, AllWithin, ChoiceStages;
    PredicatesLift(c, st, group.predicates);
    LiftPredicatesKeep(c, st, group.predicates, Runtime((_, _) => None, (_, _) => []), Inside(map[]), map[]);
    ChoiceLinks(c, st, base, refs, |refs|, LiftPredicates(c, st, group.predicates).value.1.ports.Keys);
  }

  lemma {:induction false} MembersLink(c: Compiler, st: State, authored: seq<Component>, members: seq<Extension>)
    requires Injective(c) && Good(c, st) && LowerMembers(c, st, members).Ok?
    requires (forall m | m in members :: AllAuthored(m, authored)) && authored <= st.components
    requires AllLinked(st.components, |authored|) && UniqueRefs(st.components)
    ensures var st1 := LowerMembers(c, st, members).value.1;
            AllLinked(st1.components, |authored|) && UniqueRefs(st1.components)
    decreases members, 0
  {
    if members != [] {
      var front, last := members[..|members| - 1], members[|members| - 1];
      MembersLink(c, st, authored, front);
      LowerMembersKeep(c, st, front);
      LowerLinks(c, LowerMembers(c, st, front).value.1, authored, last);
    }
  }

  /**
   The generated list is ordered and fully bound: every call made by a
   generated workflow targets something listed before it, a generated target
   receives exactly the inputs it declares, and everything passed on is a
   literal or an input the caller itself declares. This is kept when further
   groups are lowered against the same list.
   */
  lemma GeneratedWorkflowsAreLinked(c: Compiler, authored: seq<Component>, listed: seq<Component>, ext: Extension)
    requires Injective(c) && Linked(c, authored, listed) && AllAuthored(ext, authored)
             && Lower(c, Fresh(listed), ext).Ok?
    ensures var final := Lower(c, Fresh(listed), ext).value.1;
            listed <= final.components && Linked(c, authored, final.components)
  {
    hide AllLinked, UniqueRefs, Injective, Lower, AllAuthored;
    assert Good(c, Fresh(listed));
    LowerLinks(c, Fresh(listed), authored, ext);
    LowerKeeps(c, Fresh(listed), ext);
  }

  /** Authored components followed by generated ones that are linked. */
  ghost predicate Linked(c: Compiler, authored: seq<Component>, components: seq<Component>) {
    authored <= components && Sealed(c, components) && AllLinked(components, |authored|) && UniqueRefs(components)
  }

  lemma AuthoredIsLinked(c: Compiler, authored: seq<Component>)
    requires Sealed(c, authored) && UniqueRefs(authored)
    ensures Linked(c, authored, authored)
  {
  }

  // ----- An interpreter for the output ------------------------------------------------------------

  /** Run generated workflows by their stage graphs, linking each one only to what is listed before it. */
  ghost function Execute(rt: Runtime, components: seq<Component>, base: nat, leaf: Invocation): Invocation
    decreases |components|
  {
    if |components| <= base then leaf
    else
      var last := components[|components| - 1];
      var earlier := Execute(rt, components[..|components| - 1], base, leaf);
      (ref, env, path) => if ref == last.ref then RunWorkflow(rt, last.doc, env, path, earlier)
        else earlier(ref, env, path)
  }

  ghost predicate Agree(f: Invocation, g: Invocation, ref: Ref) {
    forall env, path :: f(ref, env, path) == g(ref, env, path)
  }

  ghost predicate StageAgrees(f: Invocation, g: Invocation, stage: Stage) {
    match stage
    case Invoke(_, ref, _, _, _) => Agree(f, g, ref)
    case Parallel(branches, _, _, _) => forall b | 0 <= b < |branches| :: Agree(f, g, branches[b].ref)
    case _ => true
  }

  lemma {:induction false} BranchesAgree(rt: Runtime, scope: Scope, path: seq<string>, branches: seq<ParallelBranch>,
                                         f: Invocation, g: Invocation)
    requires forall b | 0 <= b < |branches| :: Agree(f, g, branches[b].ref)
    ensures RunBranches(rt, scope, path, branches, f) == RunBranches(rt, scope, path, branches, g)
  {
    if branches != [] {
      BranchesAgree(rt, scope, path, branches[..|branches| - 1], f, g);
      assert Agree(f, g, branches[|branches| - 1].ref);
    }
  }

  lemma {:induction false} StagesAgree(rt: Runtime, doc: Workflow, id: string, scope: Scope, path: seq<string>,
                                       f: Invocation, g: Invocation, fuel: nat)
    requires forall i | i in doc.stages :: StageAgrees(f, g, doc.stages[i])
    ensures RunStage(rt, doc, id, scope, path, f, fuel) == RunStage(rt, doc, id, scope, path, g, fuel)
    decreases fuel
  {
    hide JoinFold, EvalEach, FetchAll;
    if fuel > 0 && id in doc.stages {
      assert StageAgrees(f, g, doc.stages[id]);
      match doc.stages[id]
      case Finish(_) =>
      case Invoke(_, ref, inputs, on, _) =>
        var args := FetchAll(rt, scope, inputs);
        if args.Some? {
          assert f(ref, args.value, path + [id]) == g(ref, args.value, path + [id]);
          var r := f(ref, args.value, path + [id]);
          if r.outcome.Completed? && r.outcome.name in on {
            StagesAgree(rt, doc, on[r.outcome.name], scope, path, f, g, fuel - 1);
          }
        }
      case Parallel(branches, join, _, on) =>
        BranchesAgree(rt, scope, path + [id], branches, f, g);
        var runs := RunBranches(rt, scope, path + [id], branches, f);
        var order := (rt.settle)(path + [id], |branches|);
        if IsOrder(order, |runs|) {
          var verdict := JoinFold(join, runs, order, 0, 0);
          if verdict.Some? && verdict.value in on {
            StagesAgree(rt, doc, on[verdict.value], scope, path, f, g, fuel - 1);
          }
        }
      case Choice(_, _, _, _) =>
        var next := NextChoice(rt, scope, doc.stages[id]);
        if next.Some? {
          StagesAgree(rt, doc, next.value, scope, path, f, g, fuel - 1);
        }
    }
  }

  /** What is listed early runs the same whether or not later documents are known. */
  lemma {:induction false} ExecuteEarlier(rt: Runtime, components: seq<Component>, base: nat, leaf: Invocation, j: nat,
                                          ref: Ref)
    requires j <= |components| && forall k | j <= k < |components| :: components[k].ref != ref
    ensures Agree(Execute(rt, components, base, leaf), Execute(rt, components[..j], base, leaf), ref)
    decreases |components|
  {
    if j == |components| {
      assert components[..j] == components;
    } else if |components| > base {
      var front := components[..|components| - 1];
      ExecuteEarlier(rt, front, base, leaf, j, ref);
      assert front[..j] == components[..j];
    }
  }

  lemma LinkedRefsAgree(rt: Runtime, components: seq<Component>, base: nat, leaf: Invocation, j: nat, ref: Ref)
    requires UniqueRefs(components) && j <= |components|
    requires exists i :: 0 <= i < j && components[i].ref == ref
    ensures Agree(Execute(rt, components, base, leaf), Execute(rt, components[..j], base, leaf), ref)
  {
    ExecuteEarlier(rt, components, base, leaf, j, ref);
  }

  lemma ExecuteRuns(rt: Runtime, components: seq<Component>, base: nat, leaf: Invocation, j: nat,
                    env: map<string, Json>, path: seq<string>)
    requires UniqueRefs(components) && AllLinked(components, base) && base <= j < |components|
    ensures var run := Execute(rt, components, base, leaf);
            run(components[j].ref, env, path) == RunWorkflow(rt, components[j].doc, env, path, run)
  {
    var run, earlier := Execute(rt, components, base, leaf), Execute(rt, components[..j], base, leaf);
    var doc := components[j].doc;
    ExecuteEarlier(rt, components, base, leaf, j + 1, components[j].ref);
    assert components[..j + 1][..j] == components[..j];
    assert Execute(rt, components[..j + 1], base, leaf)(components[j].ref, env, path)
             == RunWorkflow(rt, doc, env, path, earlier);
    forall id | id in doc.stages ensures StageAgrees(earlier, run, doc.stages[id]) {
      assert StageLinked(components[..j], base, doc.inputs.Keys, doc.stages[id]);
      match doc.stages[id]
      case Invoke(_, ref, inputs, _, _) => RefsAgree(rt, components, base, leaf, j, doc.inputs.Keys, ref, inputs);
      case Parallel(branches, _, _, _) =>
        forall b | 0 <= b < |branches| ensures Agree(earlier, run, branches[b].ref) {
          RefsAgree(rt, components, base, leaf, j, doc.inputs.Keys, branches[b].ref, branches[b].inputs);
        }
      case _ =>
    }
    StagesAgree(rt, doc, doc.entry, Inside(env), path, earlier, run, |doc.stages| + 1);
  }

  lemma RefsAgree(rt: Runtime, components: seq<Component>, base: nat, leaf: Invocation, j: nat, declared: set<string>,
                  ref: Ref, inputs: map<string, Binding>)
    requires UniqueRefs(components) && j <= |components| && LinkOk(components[..j], base, declared, ref, inputs)
    ensures Agree(Execute(rt, components[..j], base, leaf), Execute(rt, components, base, leaf), ref)
  {
    var i :| 0 <= i < j && components[..j][i].ref == ref;
    assert components[i].ref == ref;
    LinkedRefsAgree(rt, components, base, leaf, j, ref);
  }

  /** Everything the stage calls is listed. */
  ghost predicate CallsListed(components: seq<Component>, stage: Stage) {
    match stage
    case Invoke(_, ref, _, _, _) => exists i :: 0 <= i < |components| && components[i].ref == ref
    case Parallel(branches, _, _, _) =>
      forall b | 0 <= b < |branches| :: exists i :: 0 <= i < |components| && components[i].ref == branches[b].ref
    case _ => true
  }

  /**
   An authored workflow that carries the title of a generated wrapper, if there
   is one, is run by its stages as generated ones are, and calls authored
   components. It may be the very document a group is lowered to, and is reused then.
   */
  ghost predicate RunsOwn(rt: Runtime, leaf: Invocation, authored: seq<Component>) {
    && Realises(rt, leaf, authored)
    && forall j, id | 0 <= j < |authored| && authored[j].doc.title == WRAPPER_TITLE && id in authored[j].doc.stages ::
         CallsListed(authored, authored[j].doc.stages[id])
  }

  lemma AuthoredWrapperRuns(rt: Runtime, components: seq<Component>, base: nat, leaf: Invocation, j: nat,
                            env: map<string, Json>, path: seq<string>)
    requires UniqueRefs(components) && base <= |components| && RunsOwn(rt, leaf, components[..base])
    requires j < base && components[j].doc.title == WRAPPER_TITLE
    ensures var run := Execute(rt, components, base, leaf);
            run(components[j].ref, env, path) == RunWorkflow(rt, components[j].doc, env, path, run)
  {
    var run, doc := Execute(rt, components, base, leaf), components[j].doc;
    assert Execute(rt, components[..base], base, leaf) == leaf;
    assert components[..base][j] == components[j];
    LinkedRefsAgree(rt, components, base, leaf, base, components[j].ref);
    assert leaf(components[..base][j].ref, env, path) == RunWorkflow(rt, doc, env, path, leaf);
    forall id | id in doc.stages ensures StageAgrees(leaf, run, doc.stages[id]) {
      assert CallsListed(components[..base], doc.stages[id]);
      match doc.stages[id]
      case Invoke(_, ref, _, _, _) => ListedAgrees(rt, components, base, leaf, ref);
      case Parallel(branches, _, _, _) =>
        forall b | 0 <= b < |branches| ensures Agree(leaf, run, branches[b].ref) {
          ListedAgrees(rt, components, base, leaf, branches[b].ref);
        }
      case _ =>
    }
    StagesAgree(rt, doc, doc.entry, Inside(env), path, leaf, run, |doc.stages| + 1);
  }

  lemma ListedAgrees(rt: Runtime, components: seq<Component>, base: nat, leaf: Invocation, ref: Ref)
    requires UniqueRefs(components) && base <= |components|
    requires exists i :: 0 <= i < base && components[..base][i].ref == ref
    ensures Agree(leaf, Execute(rt, components, base, leaf), ref)
  {
    var i :| 0 <= i < base && components[..base][i].ref == ref;
    assert components[i].ref == ref;
    LinkedRefsAgree(rt, components, base, leaf, base, ref);
  }

  lemma ExecuteRealises(rt: Runtime, components: seq<Component>, base: nat, leaf: Invocation)
    requires UniqueRefs(components) && AllLinked(components, base) && base <= |components|
    requires RunsOwn(rt, leaf, components[..base])
    ensures Realises(rt, Execute(rt, components, base, leaf), components)
  {
    hide RunsOwn, AllLinked, UniqueRefs, Execute;
    var run := Execute(rt, components, base, leaf);
    forall j, env, path {:trigger run(components[j].ref, env, path)} |
      0 <= j < |components| && components[j].doc.title == WRAPPER_TITLE
      ensures run(components[j].ref, env, path) == RunWorkflow(rt, components[j].doc, env, path, run)
    {
      if j < base {
        AuthoredWrapperRuns(rt, components, base, leaf, j, env, path);
      } else {
        ExecuteRuns(rt, components, base, leaf, j, env, path);
      }
    }
  }

  // ----- The meaning of a tree depends only on how its own leaves behave ---------------------------------

  lemma {:induction false} MeaningAgrees(w: World, g: Invocation, ext: Extension, path: seq<string>)
    requires WellFormed(ext)
    requires forall j | 0 <= j < |w.authored| :: Agree(w.invoke, g, w.authored[j].ref)
    ensures MeaningOf(w, ext, path) == MeaningOf(w.(invoke := g), ext, path)
    decreases ext, 1, 0
  {
    if ext.Leaf? {
      var found := Targets(w.authored, ext);
      var args := FetchAll(w.rt, w.scope, LeafInputs(ext.bindings));
      if found != [] && args.Some? {
        TargetsListed(w.authored, ext);
        assert found[0] in w.authored;
        assert Agree(w.invoke, g, found[0].ref);
        assert (w.invoke)(found[0].ref, args.value, path + ["run"]) == g(found[0].ref, args.value, path + ["run"]);
      }
    } else {
      match ext.kind
      case SequenceOf => MeaningFromAgrees(w, g, ext.members, 0, path);
      case ParallelOf => MeaningOfEachAgrees(w, g, ext.members, path + ["run"]);
      case ChoiceOf =>
        match Select(ext.selection, EvalEach(w.rt, w.scope, ext.predicates))
        case Branch(i) => if i < |ext.members| { MeaningAgrees(w, g, ext.members[i], path + [Member(i)]); }
        case Default => MeaningAgrees(w, g, ext.members[ext.default], path + [Member(ext.default)]);
        case _ =>
    }
  }

  lemma {:induction false} MeaningFromAgrees(w: World, g: Invocation, members: seq<Extension>, i: nat,
                                             path: seq<string>)
    requires i <= |members| && forall m | m in members :: WellFormed(m)
    requires forall j | 0 <= j < |w.authored| :: Agree(w.invoke, g, w.authored[j].ref)
    ensures MeaningFrom(w, members, i, path) == MeaningFrom(w.(invoke := g), members, i, path)
    decreases members, 0, |members| - i
  {
    if i < |members| {
      MeaningAgrees(w, g, members[i], path + [Member(i)]);
      MeaningFromAgrees(w, g, members, i + 1, path);
    }
  }

  lemma {:induction false} MeaningOfEachAgrees(w: World, g: Invocation, members: seq<Extension>, path: seq<string>)
    requires forall m | m in members :: WellFormed(m)
    requires forall j | 0 <= j < |w.authored| :: Agree(w.invoke, g, w.authored[j].ref)
    ensures MeaningOfEach(w, members, path) == MeaningOfEach(w.(invoke := g), members, path)
    decreases members, 0, 0
  {
    if members != [] {
      MeaningOfEachAgrees(w, g, members[..|members| - 1], path);
      MeaningAgrees(w, g, members[|members| - 1], path + [Member(|members| - 1)]);
    }
  }

  /**
   The end to end result for one group, lowered against a list that may hold
   the wrappers of earlier groups already. For any behaviour of the authored
   components, the interpreter that steps the generated stage graphs of the
   finished list reaches, through the outer call, exactly the evaluation of
   the tree by those authored components.
   */
  lemma CompiledGroupRunsAsWritten(c: Compiler, rt: Runtime, scope: Scope, authored: seq<Component>,
                                   listed: seq<Component>,
                                   all: seq<Component>, leaf: Invocation, ext: Extension, path: seq<string>)
    requires RunsOwn(rt, leaf, authored) && SettlesAll(rt) && Linked(c, authored, all) && listed <= all
    requires Listed(c, World(rt, scope, leaf, authored), listed, ext, all)
    ensures var (ref, final) := Lower(c, Fresh(listed), ext).value;
            var args := FetchAll(rt, scope, final.external);
            args.Some? ==>
              Execute(rt, all, |authored|, leaf)(ref, args.value, path)
              == MeaningOf(World(rt, scope, leaf, authored), ext, path)
  {
    hide MeaningOf, Lower, AllLinked, UniqueRefs, Injective, WellFormed, AllAuthored, Execute, SettlesAll, RunsOwn;
    var run := Execute(rt, all, |authored|, leaf);
    assert all[..|authored|] == authored;
    ExecuteRealises(rt, all, |authored|, leaf);
    var w := World(rt, scope, run, authored);
    LoweringPreservesMeaning(c, w, listed, ext, all, path);
    AuthoredRuns(c, rt, authored, all, leaf);
    MeaningAgrees(w, leaf, ext, path);
  }

  lemma AuthoredRuns(c: Compiler, rt: Runtime, authored: seq<Component>, all: seq<Component>, leaf: Invocation)
    requires Linked(c, authored, all)
    ensures forall j | 0 <= j < |authored| :: Agree(Execute(rt, all, |authored|, leaf), leaf, authored[j].ref)
  {
    forall j | 0 <= j < |authored| ensures Agree(Execute(rt, all, |authored|, leaf), leaf, authored[j].ref) {
      forall k | |authored| <= k < |all| ensures all[k].ref != authored[j].ref {
        assert all[j] == authored[j];
      }
      ExecuteEarlier(rt, all, |authored|, leaf, |authored|, authored[j].ref);
    }
  }

  // ----- One group after another -------------------------------------------------------------------

  /** Lowering one more group, by a compiler of the same digest function, keeps the list linked. */
  lemma NextIsLinked(c1: Compiler, c: Compiler, authored: seq<Component>, listed: seq<Component>, group: Extension)
    requires c1.digest == c.digest && Injective(c) && Linked(c, authored, listed)
    requires AllAuthored(group, authored) && Lower(c1, Fresh(listed), group).Ok?
    ensures Linked(c, authored, Lower(c1, Fresh(listed), group).value.1.components)
    ensures listed <= Lower(c1, Fresh(listed), group).value.1.components
  {
    hide AllLinked, UniqueRefs, Lower, AllAuthored;
    assert Injective(c1);
    hide Injective;
    assert Linked(c1, authored, listed);
    GeneratedWorkflowsAreLinked(c1, authored, listed, group);
  }
}
