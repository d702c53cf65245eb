/** Lowering keeps what a composed contribution means: its control flow and its data flow. */
module LoweringProof {
  import opened Prelude
  import opened Flow
  import opened Extensions
  import opened Lowering
  import opened Meaning

  // ----- State invariant ------------------------------------------------------------

  ghost predicate Injective(c: Compiler) {
    forall a, b :: (c.digest)(a) == (c.digest)(b) ==> a == b
  }

  /** Every listed component carries the digest of its own document. */
  ghost predicate Sealed(c: Compiler, components: seq<Component>) {
    forall j | 0 <= j < |components| :: components[j].ref.digest == (c.digest)(components[j].doc)
  }

  ghost predicate Good(c: Compiler, st: State) {
    && st.external.Keys == st.ports.Keys
    && (forall k | k in st.external :: st.external[k].Bound? && LiftKey(c, st.external[k]) == k)
    && Sealed(c, st.components)
  }

  /** Nothing already lifted or listed is lost or changed. */
  ghost predicate Extends(st: State, st1: State) {
    && (forall k | k in st.external :: k in st1.external && st1.external[k] == st.external[k])
    && st.components <= st1.components
  }

  ghost predicate Holds(components: seq<Component>, ref: Ref, doc: Workflow) {
    exists j :: 0 <= j < |components| && components[j].ref == ref && components[j].doc == doc
  }

  lemma HoldsOne(c: Compiler, components: seq<Component>, ref: Ref, a: Workflow, b: Workflow)
    requires Injective(c) && Sealed(c, components)
    requires Holds(components, ref, a) && Holds(components, ref, b)
    ensures a == b
  {
    assert (c.digest)(a) == ref.digest == (c.digest)(b);
  }

  // ----- Lifting keeps the invariant and the data ---------------------------------------

  /** `lifted` reads, inside a wrapper, the input under which `b` was lifted. */
  ghost predicate Carries(c: Compiler, st: State, lifted: Binding, b: Binding) {
    if b.Literal? then lifted == b
    else
      && lifted == Bound(WorkflowInput(LiftKey(c, b)), None)
      && LiftKey(c, b) in st.external
      && st.external[LiftKey(c, b)] == b
  }

  lemma LiftKeeps(c: Compiler, st: State, b: Binding)
    requires Good(c, st) && Lift(c, st, b).Ok?
    ensures var (lifted, st1) := Lift(c, st, b).value;
            Good(c, st1) && Extends(st, st1) && st1.components == st.components && Carries(c, st1, lifted, b)
  {
  }

  lemma {:induction false} LiftBindingsKeep(c: Compiler, st: State, bs: seq<(string, Binding)>)
    requires Good(c, st) && LiftBindings(c, st, bs).Ok?
    ensures var (inputs, st1) := LiftBindings(c, st, bs).value;
            && Good(c, st1) && Extends(st, st1) && st1.components == st.components
            && inputs.Keys == LeafInputs(bs).Keys
            && forall p | p in inputs :: Carries(c, st1, inputs[p], LeafInputs(bs)[p])
  {
    if bs != [] {
      var front, last := bs[..|bs| - 1], bs[|bs| - 1];
      LiftBindingsKeep(c, st, front);
      var (inputs, st1) := LiftBindings(c, st, front).value;
      LiftKeeps(c, st1, last.1);
    }
  }

  /** Every value `st` lifted is available under its key. */
  ghost predicate Supplies(rt: Runtime, scope: Scope, env: map<string, Json>, external: map<string, Binding>) {
    forall k | k in external :: k in env && Fetch(rt, scope, external[k]) == Some(env[k])
  }

  lemma LiftFieldKeeps(c: Compiler, st: State, ref: FieldRef, rt: Runtime, scope: Scope, env: map<string, Json>)
    requires Good(c, st) && LiftField(c, st, ref).Ok?
    ensures var (lifted, st1) := LiftField(c, st, ref).value;
            && Good(c, st1) && Extends(st, st1) && st1.components == st.components
            && (Supplies(rt, scope, env, st1.external) ==> Resolve(rt, Inside(env), lifted) == Resolve(rt, scope, ref))
  {
    if !ref.source.OtherSource? {
      LiftKeeps(c, st, Bound(ref.source, None));
    }
  }

  lemma LiftOperandKeeps(c: Compiler, st: State, operand: Operand, rt: Runtime, scope: Scope, env: map<string, Json>)
    requires Good(c, st) && LiftOperand(c, st, operand).Ok?
    ensures var (lifted, st1) := LiftOperand(c, st, operand).value;
            && Good(c, st1) && Extends(st, st1) && st1.components == st.components
            && (Supplies(rt, scope, env, st1.external) ==>
                  OperandValue(rt, Inside(env), lifted) == OperandValue(rt, scope, operand))
  {
    if operand.FieldOperand? {
      LiftFieldKeeps(c, st, operand.ref, rt, scope, env);
    }
  }

  /** A lifted predicate decides inside the wrapper exactly what the authored one decides at the root. */
  lemma {:induction false} LiftPredicateKeeps(c: Compiler, st: State, p: Predicate, rt: Runtime, scope: Scope,
                                              env: map<string, Json>)
    requires Good(c, st) && LiftPredicate(c, st, p).Ok?
    ensures var (lifted, st1) := LiftPredicate(c, st, p).value;
            && Good(c, st1) && Extends(st, st1) && st1.components == st.components
            && (Supplies(rt, scope, env, st1.external) ==> Eval(rt, Inside(env), lifted) == Eval(rt, scope, p))
    decreases p, 1
  {
    match p
    case Compare(_, left, right) =>
      LiftOperandKeeps(c, st, left, rt, scope, env);
      var (_, st1) := LiftOperand(c, st, left).value;
      LiftOperandKeeps(c, st1, right, rt, scope, env);
    case Exists(ref) => LiftFieldKeeps(c, st, ref, rt, scope, env);
    case Not(arg) => LiftPredicateKeeps(c, st, arg, rt, scope, env);
    case All(args) => LiftPredicatesKeep(c, st, args, rt, scope, env);
    case Any(args) => LiftPredicatesKeep(c, st, args, rt, scope, env);
  }

  lemma {:induction false} LiftPredicatesKeep(c: Compiler, st: State, ps: seq<Predicate>, rt: Runtime, scope: Scope,
                                              env: map<string, Json>)
    requires Good(c, st) && LiftPredicates(c, st, ps).Ok?
    ensures var (lifted, st1) := LiftPredicates(c, st, ps).value;
            && Good(c, st1) && Extends(st, st1) && st1.components == st.components && |lifted| == |ps|
            && (Supplies(rt, scope, env, st1.external) ==> EvalEach(rt, Inside(env), lifted) == EvalEach(rt, scope, ps))
    decreases ps, 0
  {
    if ps != [] {
      var front := ps[..|ps| - 1];
      LiftPredicatesKeep(c, st, front, rt, scope, env);
      var (before, st1) := LiftPredicates(c, st, front).value;
      LiftPredicateKeeps(c, st1, ps[|ps| - 1], rt, scope, env);
      var (last, st2) := LiftPredicate(c, st1, ps[|ps| - 1]).value;
      assert (before + [last])[..|ps| - 1] == before;
    }
  }

  // ----- Sealing and lowering keep the invariant ----------------------------------------------

  lemma SealKeeps(c: Compiler, st: State, ext: Extension, entry: string, stages: map<string, Stage>)
    requires Injective(c) && Good(c, st) && Seal(c, st, ext, entry, stages).Ok?
    ensures var (ref, st1) := Seal(c, st, ext, entry, stages).value;
            && Good(c, st1) && Extends(st, st1) && st1.external == st.external && st1.ports == st.ports
            && WrapperId(c, ext).Ok?
            && Holds(st1.components, ref, Wrapper(c, st, WrapperId(c, ext).value, entry, stages))
  {
    var (ref, st1) := Seal(c, st, ext, entry, stages).value;
    var doc := Wrapper(c, st, WrapperId(c, ext).value, entry, stages);
    if j :| 0 <= j < |st.components| && st.components[j].ref == ref {
      assert (c.digest)(st.components[j].doc) == (c.digest)(doc);
    } else {
      assert st1.components[|st.components|].doc == doc;
    }
  }

  lemma ExtendsTransitive(a: State, b: State, d: State)
    requires Extends(a, b) && Extends(b, d)
    ensures Extends(a, d)
  {
  }

  lemma HoldsMore(st: State, st1: State, ref: Ref, doc: Workflow)
    requires Extends(st, st1) && Holds(st.components, ref, doc)
    ensures Holds(st1.components, ref, doc)
  {
  }

  /** The document a reference stands for reads no input beyond those lifted so far. */
  ghost predicate Within(st: State, ref: Ref) {
    exists doc :: Holds(st.components, ref, doc) && doc.inputs.Keys <= st.ports.Keys
  }

  lemma WithinMore(st: State, st1: State, ref: Ref)
    requires Extends(st, st1) && st.external.Keys == st.ports.Keys && st1.external.Keys == st1.ports.Keys
    requires Within(st, ref)
    ensures Within(st1, ref)
  {
    var doc :| Holds(st.components, ref, doc) && doc.inputs.Keys <= st.ports.Keys;
    HoldsMore(st, st1, ref, doc);
  }

  lemma {:induction false} LowerKeeps(c: Compiler, st: State, ext: Extension)
    requires Injective(c) && Good(c, st) && Lower(c, st, ext).Ok?
    ensures var (ref, st1) := Lower(c, st, ext).value;
            Good(c, st1) && Extends(st, st1) && Within(st1, ref)
    decreases ext, 1
  {
    match ext
    case Leaf(_, _, _, bindings, _) =>
      LiftBindingsKeep(c, st, bindings);
      var (inputs, st1) := LiftBindings(c, st, bindings).value;
      var (target, on) := FindTarget(st1.components, ext).value;
      SealKeeps(c, st1, ext, "run", ENDINGS["run" := LeafStage(ext, target, inputs, on)]);
    case Group(_, _, _, _, _, _) => GroupSeals(c, st, ext);
  }

  /** Sealing a group's wrapper keeps the invariant and lists its document under the returned reference. */
  lemma {:induction false} GroupSeals(c: Compiler, st: State, ext: Extension)
    requires ext.Group? && Injective(c) && Good(c, st) && Lower(c, st, ext).Ok?
    ensures var (entry, stages, before) := GroupWrapper(c, st, ext).value;
            var (ref, st1) := Lower(c, st, ext).value;
            && Good(c, st1) && Extends(st, st1) && Within(st1, ref)
            && Good(c, before) && Extends(before, st1) && Extends(LowerMembers(c, st, ext.members).value.1, before)
            && WrapperId(c, ext).Ok?
            && Holds(st1.components, ref, Wrapper(c, before, WrapperId(c, ext).value, entry, stages))
    decreases ext, 0
  {
    LowerMembersKeep(c, st, ext.members);
    var (refs, st1) := LowerMembers(c, st, ext.members).value;
    if ext.kind == ChoiceOf {
      LiftPredicatesKeep(c, st1, ext.predicates, Runtime((_, _) => None, (_, _) => []), Inside(map[]), map[]);
    }
    var (entry, stages, before) := GroupWrapper(c, st, ext).value;
    SealKeeps(c, before, ext, entry, stages);
    ExtendsTransitive(st1, before, Lower(c, st, ext).value.1);
    ExtendsTransitive(st, st1, Lower(c, st, ext).value.1);
  }

  lemma {:induction false} LowerMembersKeep(c: Compiler, st: State, members: seq<Extension>)
    requires Injective(c) && Good(c, st) && LowerMembers(c, st, members).Ok?
    ensures var (refs, st1) := LowerMembers(c, st, members).value;
            Good(c, st1) && Extends(st, st1) && forall i | 0 <= i < |refs| :: Within(st1, refs[i])
    decreases members, 0
  {
    if members != [] {
      var front := members[..|members| - 1];
      LowerMembersKeep(c, st, front);
      var (refs, st1) := LowerMembers(c, st, front).value;
      LowerKeeps(c, st1, members[|members| - 1]);
      var (_, st2) := Lower(c, st1, members[|members| - 1]).value;
      forall i | 0 <= i < |refs| ensures Within(st2, refs[i]) {
        WithinMore(st1, st2, refs[i]);
      }
    }
  }

  // ----- Stage names --------------------------------------------------------------------------

  lemma MemberNames(i: nat, j: nat)
    ensures Member(i) == Member(j) ==> i == j
    ensures Member(i) !in {"done", "rejected", "run"}
  {
    assert Member(i)[|MEMBER_PREFIX|..] == Decimal(i);
    assert Member(j)[|MEMBER_PREFIX|..] == Decimal(j);
    if Member(i) == Member(j) { DecimalInjective(i, j); }
    assert Member(i)[0] == 'm';
  }

  /** The endings plus one stage per member below `k`. */
  ghost predicate MemberStages(stages: map<string, Stage>, k: nat) {
    && |stages| == k + 2
    && "done" in stages && stages["done"] == Finish("succeeded")
    && "rejected" in stages && stages["rejected"] == Finish("rejected")
    && forall i: nat :: Member(i) in stages <==> i < k
  }

  lemma AddStage(stages: map<string, Stage>, k: nat, stage: Stage)
    requires MemberStages(stages, k)
    ensures MemberStages(stages[Member(k) := stage], k + 1)
    ensures forall i: nat | i < k :: Member(i) != Member(k)
  {
    forall i: nat ensures Member(i) == Member(k) ==> i == k { MemberNames(i, k); }
    MemberNames(k, k);
  }

  lemma NoMembers()
    ensures MemberStages(ENDINGS, 0)
  {
    forall i: nat ensures Member(i) !in ENDINGS { MemberNames(i, i); }
    assert ENDINGS.Keys == {"done", "rejected"};
    assert "done" != "rejected";
  }

  lemma {:induction false} SequenceStagesAre(components: seq<Component>, offered: map<string, Binding>, refs: seq<Ref>,
                                             k: nat)
    requires k <= |refs|
    ensures MemberStages(SequenceStages(components, offered, refs, k), k)
    ensures forall i: nat {:trigger refs[i]} | i < k ::
              SequenceStages(components, offered, refs, k)[Member(i)]
                == MemberCall(components, offered, refs[i], SequenceNext(i, |refs|))
  {
    if k == 0 {
      NoMembers();
    } else {
      SequenceStagesAre(components, offered, refs, k - 1);
      AddStage(SequenceStages(components, offered, refs, k - 1), k - 1,
               MemberCall(components, offered, refs[k - 1], SequenceNext(k - 1, |refs|)));
    }
  }

  lemma {:induction false} ChoiceStagesAre(components: seq<Component>, offered: map<string, Binding>, refs: seq<Ref>,
                                           k: nat)
    requires k <= |refs|
    ensures MemberStages(ChoiceStages(components, offered, refs, k), k)
    ensures forall i: nat {:trigger refs[i]} | i < k ::
              ChoiceStages(components, offered, refs, k)[Member(i)] == MemberCall(components, offered, refs[i], "done")
  {
    if k == 0 {
      NoMembers();
    } else {
      ChoiceStagesAre(components, offered, refs, k - 1);
      AddStage(ChoiceStages(components, offered, refs, k - 1), k - 1,
               MemberCall(components, offered, refs[k - 1], "done"));
    }
  }

  lemma {:induction false} BranchesAre(components: seq<Component>, offered: map<string, Binding>, refs: seq<Ref>,
                                       i: nat)
    requires i < |refs|
    ensures Branches(components, offered, refs)[i]
              == ParallelBranch(Member(i), refs[i], ChildBindings(components, refs[i], offered))
  {
    if i < |refs| - 1 {
      BranchesAre(components, offered, refs[..|refs| - 1], i);
    }
  }

  lemma {:induction false} AlternativesAre(ps: seq<Predicate>, i: nat)
    requires i < |ps|
    ensures Alternatives(ps)[i].guard == ps[i] && Alternatives(ps)[i].next == Member(i)
  {
    if i < |ps| - 1 {
      AlternativesAre(ps[..|ps| - 1], i);
    }
  }

  // ----- Running a wrapper -----------------------------------------------------------------------

  /** `invoke` runs every wrapper in the list by stepping its stage graph. */
  ghost predicate Realises(rt: Runtime, invoke: Invocation, components: seq<Component>) {
    forall j, env, path {:trigger invoke(components[j].ref, env, path)} |
      0 <= j < |components| && components[j].doc.title == WRAPPER_TITLE ::
      invoke(components[j].ref, env, path) == RunWorkflow(rt, components[j].doc, env, path, invoke)
  }

  ghost predicate SettlesAll(rt: Runtime) {
    forall path, n: nat {:trigger (rt.settle)(path, n)} :: IsOrder((rt.settle)(path, n), n)
  }

  /** The facts about one compilation and one world that every step of the proof uses. */
  ghost predicate Setting(c: Compiler, w: World, final: State) {
    && Injective(c) && Good(c, final)
    && SettlesAll(w.rt)
    && Realises(w.rt, w.invoke, final.components)
    && w.authored <= final.components
  }

  /** The inputs under `keys` hold the values of the bindings lifted under them. */
  ghost predicate Fits(w: World, final: State, keys: set<string>, env: map<string, Json>) {
    forall k | k in keys :: k in final.external && k in env && Fetch(w.rt, w.scope, final.external[k]) == Some(env[k])
  }

  /** Invoking `ref` with inputs that fit is evaluating `ext` at the root. */
  ghost predicate Implements(w: World, final: State, ref: Ref, ext: Extension)
    requires WellFormed(ext)
  {
    forall doc, env, path {:trigger Holds(final.components, ref, doc), (w.invoke)(ref, env, path)} |
      Holds(final.components, ref, doc) && Fits(w, final, doc.inputs.Keys, env) ::
      (w.invoke)(ref, env, path) == MeaningOf(w, ext, path)
  }

  lemma ChildBindingsAre(c: Compiler, st: State, ref: Ref, doc: Workflow)
    requires Injective(c) && Good(c, st)
    requires Holds(st.components, ref, doc) && doc.inputs.Keys <= st.ports.Keys
    ensures var bound := ChildBindings(st.components, ref, Offered(st.ports));
            bound.Keys == doc.inputs.Keys && forall p | p in bound :: bound[p] == Bound(WorkflowInput(p), None)
  {
    var bound := ChildBindings(st.components, ref, Offered(st.ports));
    forall p ensures p in bound <==> p in doc.inputs {
      if p in bound {
        var j :| 0 <= j < |st.components| && st.components[j].ref == ref && p in st.components[j].doc.inputs;
        HoldsOne(c, st.components, ref, doc, st.components[j].doc);
      }
    }
  }

  /** Calling a lowered member from its wrapper is evaluating the member. */
  lemma MemberRuns(c: Compiler, w: World, st: State, final: State, ref: Ref, ext: Extension,
                   env: map<string, Json>, path: seq<string>)
    requires WellFormed(ext) && Setting(c, w, final) && Good(c, st) && Extends(st, final)
    requires Within(st, ref) && Implements(w, final, ref, ext) && Fits(w, final, st.ports.Keys, env)
    ensures var args := FetchAll(w.rt, Inside(env), ChildBindings(st.components, ref, Offered(st.ports)));
            args.Some? && (w.invoke)(ref, args.value, path) == MeaningOf(w, ext, path)
  {
    hide Good, Injective, Realises, SettlesAll, MeaningOf, Extends;
    var doc :| Holds(st.components, ref, doc) && doc.inputs.Keys <= st.ports.Keys;
    HoldsMore(st, final, ref, doc);
    ChildBindingsAre(c, st, ref, doc);
    var args := FetchAll(w.rt, Inside(env), ChildBindings(st.components, ref, Offered(st.ports)));
    assert Fits(w, final, doc.inputs.Keys, args.value);
  }

  ghost predicate MembersImplement(w: World, final: State, refs: seq<Ref>, members: seq<Extension>) {
    && |refs| == |members|
    && (forall m | m in members :: WellFormed(m))
    && forall i | 0 <= i < |refs| :: Implements(w, final, refs[i], members[i])
  }

  ghost predicate AllWithin(st: State, refs: seq<Ref>) {
    forall i | 0 <= i < |refs| :: Within(st, refs[i])
  }

  /** With inputs `env`, binding and calling `ref` from stage path `path` is evaluating `ext` there. */
  ghost predicate CallMeans(w: World, st: State, ref: Ref, ext: Extension, env: map<string, Json>, path: seq<string>)
    requires WellFormed(ext)
  {
    var args := FetchAll(w.rt, Inside(env), ChildBindings(st.components, ref, Offered(st.ports)));
    args.Some? && (w.invoke)(ref, args.value, path) == MeaningOf(w, ext, path)
  }

  /** Entering a stage of `doc` with a bound on the number of stages still to be entered. */
  ghost function Runner(w: World, doc: Workflow, env: map<string, Json>, path: seq<string>): (string, nat) -> Run {
    (id: string, fuel: nat) => RunStage(w.rt, doc, id, Inside(env), path, w.invoke, fuel)
  }

  /** Stage `id` evaluates `ext`, goes on to `next` if that succeeded, and otherwise ends with its result. */
  ghost predicate Steps(w: World, enter: (string, nat) -> Run, id: string, next: string, ext: Extension,
                        path: seq<string>)
    requires WellFormed(ext)
  {
    var r := MeaningOf(w, ext, path + [id]);
    forall fuel: nat {:trigger enter(id, fuel)} | fuel > 1 ::
      enter(id, fuel) == if r.outcome == SUCCEEDED then After(r.events, enter(next, fuel - 1)) else r
  }

  ghost predicate Finishes(enter: (string, nat) -> Run) {
    forall fuel: nat {:trigger enter("done", fuel)} | fuel > 0 :: enter("done", fuel) == Run(SUCCEEDED, [])
  }

  lemma CallStep(w: World, st: State, ref: Ref, ext: Extension,
                 doc: Workflow, id: string, next: string, env: map<string, Json>, path: seq<string>, fuel: nat)
    requires fuel > 1
    requires WellFormed(ext) && CallMeans(w, st, ref, ext, env, path + [id])
    requires id in doc.stages && doc.stages[id] == MemberCall(st.components, Offered(st.ports), ref, next)
    requires "rejected" in doc.stages && doc.stages["rejected"] == Finish("rejected")
    ensures var r := MeaningOf(w, ext, path + [id]);
            RunStage(w.rt, doc, id, Inside(env), path, w.invoke, fuel) ==
            if r.outcome == SUCCEEDED
            then After(r.events, RunStage(w.rt, doc, next, Inside(env), path, w.invoke, fuel - 1)) else r
  {
    ThreeOutcomes(w, ext, path + [id]);
    var r := MeaningOf(w, ext, path + [id]);
    assert r.events + [] == r.events;
  }

  lemma CallSteps(w: World, st: State, ref: Ref, ext: Extension,
                  doc: Workflow, id: string, next: string, env: map<string, Json>, path: seq<string>)
    requires WellFormed(ext) && CallMeans(w, st, ref, ext, env, path + [id])
    requires id in doc.stages && doc.stages[id] == MemberCall(st.components, Offered(st.ports), ref, next)
    requires "rejected" in doc.stages && doc.stages["rejected"] == Finish("rejected")
    ensures Steps(w, Runner(w, doc, env, path), id, next, ext, path)
  {
    var r, enter := MeaningOf(w, ext, path + [id]), Runner(w, doc, env, path);
    forall fuel: nat {:trigger enter(id, fuel)} | fuel > 1
      ensures enter(id, fuel) == if r.outcome == SUCCEEDED then After(r.events, enter(next, fuel - 1)) else r
    {
      CallStep(w, st, ref, ext, doc, id, next, env, path, fuel);
    }
  }

  lemma StepOnce(w: World, enter: (string, nat) -> Run, id: string, next: string, ext: Extension, path: seq<string>,
                 fuel: nat)
    requires WellFormed(ext) && Steps(w, enter, id, next, ext, path) && fuel > 1
    ensures var r := MeaningOf(w, ext, path + [id]);
            enter(id, fuel) == if r.outcome == SUCCEEDED then After(r.events, enter(next, fuel - 1)) else r
  {
  }

  lemma FinishOnce(enter: (string, nat) -> Run, fuel: nat)
    requires Finishes(enter) && fuel > 0
    ensures enter("done", fuel) == Run(SUCCEEDED, [])
  {
  }

  lemma {:induction false} SequenceRuns(w: World, members: seq<Extension>, enter: (string, nat) -> Run, i: nat,
                                        path: seq<string>, fuel: nat)
    requires i <= |members| && fuel > |members| - i
    requires Finishes(enter)
    requires forall m | m in members :: WellFormed(m)
    requires forall k: nat {:trigger members[k]} | k < |members| ::
               Steps(w, enter, Member(k), SequenceNext(k, |members|), members[k], path)
    ensures enter(if i < |members| then Member(i) else "done", fuel) == MeaningFrom(w, members, i, path)
    decreases |members| - i
  {
    hide MeaningOf, WellFormed, Steps, Finishes;
    if i < |members| {
      StepOnce(w, enter, Member(i), SequenceNext(i, |members|), members[i], path, fuel);
      SequenceRuns(w, members, enter, i + 1, path, fuel - 1);
    } else {
      FinishOnce(enter, fuel);
    }
  }

  // ----- Fan-out ---------------------------------------------------------------------------------

  /** Whatever the settlement order, the fold ends in a failure, a full acceptance, or neither. */
  lemma {:induction false} JoinFoldFrom(join: Join, runs: seq<Run>, order: seq<nat>, accepted: nat, observed: nat)
    requires |order| == |runs| && observed <= |order| && accepted <= observed
    requires forall k | 0 <= k < |order| :: order[k] < |runs|
    requires join.accept == ["succeeded"]
    ensures var r := JoinFold(join, runs, order, accepted, observed);
            if exists k | observed <= k < |order| :: runs[order[k]].outcome == Failed then r == None
            else if accepted == observed && forall k | observed <= k < |order| :: runs[order[k]].outcome == SUCCEEDED
            then r == Some("satisfied")
            else r == Some("unsatisfied")
    decreases |order| - observed
  {
    if observed < |order| {
      var outcome := runs[order[observed]].outcome;
      if outcome.Completed? {
        JoinFoldFrom(join, runs, order, if outcome.name in join.accept then accepted + 1 else accepted, observed + 1);
      }
    }
  }

  lemma JoinIsOrderFree(join: Join, runs: seq<Run>, order: seq<nat>)
    requires IsOrder(order, |runs|) && join.accept == ["succeeded"]
    ensures JoinFold(join, runs, order, 0, 0) ==
            match ParallelOutcome(runs)
            case Failed => None
            case Completed(name) => Some(if name == "succeeded" then "satisfied" else "unsatisfied")
  {
    hide JoinFold;
    JoinFoldFrom(join, runs, order, 0, 0);
    if i :| 0 <= i < |runs| && runs[i].outcome == Failed {
      Pigeonhole(order, |runs|, i);
    }
    if i :| 0 <= i < |runs| && runs[i].outcome != SUCCEEDED {
      Pigeonhole(order, |runs|, i);
    }
  }

  lemma {:induction false} RunBranchesAt(rt: Runtime, scope: Scope, path: seq<string>, branches: seq<ParallelBranch>,
                                         invoke: Invocation, i: nat)
    requires i < |branches|
    ensures RunBranches(rt, scope, path, branches, invoke)[i] == RunBranch(rt, scope, path, branches[i], invoke)
  {
    if i < |branches| - 1 {
      RunBranchesAt(rt, scope, path, branches[..|branches| - 1], invoke, i);
    }
  }

  lemma BranchesRun(w: World, st: State, refs: seq<Ref>, members: seq<Extension>, env: map<string, Json>,
                    path: seq<string>)
    requires |refs| == |members| && forall m | m in members :: WellFormed(m)
    requires forall k: nat | k < |refs| :: CallMeans(w, st, refs[k], members[k], env, path + [Member(k)])
    ensures RunBranches(w.rt, Inside(env), path, Branches(st.components, Offered(st.ports), refs), w.invoke)
            == MeaningOfEach(w, members, path)
  {
    var branches := Branches(st.components, Offered(st.ports), refs);
    var runs := RunBranches(w.rt, Inside(env), path, branches, w.invoke);
    forall k: nat | k < |refs| ensures runs[k] == MeaningOfEach(w, members, path)[k] {
      RunBranchesAt(w.rt, Inside(env), path, branches, w.invoke, k);
      BranchesAre(st.components, Offered(st.ports), refs, k);
      MeaningOfEachAt(w, members, path, k);
      assert CallMeans(w, st, refs[k], members[k], env, path + [Member(k)]);
    }
  }

  lemma ParallelRuns(w: World, st: State, refs: seq<Ref>, members: seq<Extension>, doc: Workflow,
                     env: map<string, Json>, path: seq<string>, fuel: nat)
    requires fuel > 1 && SettlesAll(w.rt)
    requires |refs| == |members| && forall m | m in members :: WellFormed(m)
    requires forall k: nat | k < |refs| :: CallMeans(w, st, refs[k], members[k], env, path + ["run"] + [Member(k)])
    requires doc.stages == ENDINGS["run" := ParallelStage(Branches(st.components, Offered(st.ports), refs))]
    ensures var runs := MeaningOfEach(w, members, path + ["run"]);
            RunStage(w.rt, doc, "run", Inside(env), path, w.invoke, fuel)
            == Run(ParallelOutcome(runs), [Together(Histories(runs))])
  {
    hide CallMeans, MeaningOf, MeaningOfEach, JoinFold, RunBranches, Histories, Branches;
    BranchesRun(w, st, refs, members, env, path + ["run"]);
    var runs := MeaningOfEach(w, members, path + ["run"]);
    var order := (w.rt.settle)(path + ["run"], |refs|);
    assert IsOrder(order, |refs|);
    JoinIsOrderFree(Join("all", ["succeeded"], "wait"), runs, order);
    assert [Together(Histories(runs))] + [] == [Together(Histories(runs))];
    assert "done" in ENDINGS && "rejected" in ENDINGS;
  }

  // ----- Choice --------------------------------------------------------------------------------------

  lemma {:induction false} MatchesInRange(ts: seq<Truth>)
    ensures forall m | m in Matches(ts) :: m < |ts|
  {
    if ts != [] { MatchesInRange(ts[..|ts| - 1]); }
  }

  lemma SelectInRange(selection: string, ts: seq<Truth>)
    ensures Select(selection, ts).Branch? ==> Select(selection, ts).index < |ts|
  {
    var seen := ts[..Looked(selection, ts)];
    MatchesInRange(seen);
    if |Matches(seen)| == 1 {
      assert Matches(seen)[0] in Matches(seen);
    }
  }

  lemma PredicatesOfAlternatives(ps: seq<Predicate>)
    ensures Predicates(Alternatives(ps)) == ps
  {
    forall i: nat | i < |ps| ensures Predicates(Alternatives(ps))[i] == ps[i] {
      AlternativesAre(ps, i);
    }
  }

  lemma ChoiceRuns(w: World, group: Extension, ps: seq<Predicate>, doc: Workflow,
                   env: map<string, Json>, path: seq<string>, fuel: nat)
    requires fuel > 2 && group.Group? && group.kind == ChoiceOf && WellFormed(group)
    requires EvalEach(w.rt, Inside(env), ps) == EvalEach(w.rt, w.scope, group.predicates)
    requires "run" in doc.stages && doc.stages["run"] == ChoiceStage(group, ps)
    requires "rejected" in doc.stages && doc.stages["rejected"] == Finish("rejected")
    requires Finishes(Runner(w, doc, env, path))
    requires forall k: nat {:trigger group.members[k]} | k < |group.members| ::
               Steps(w, Runner(w, doc, env, path), Member(k), "done", group.members[k], path)
    ensures RunStage(w.rt, doc, "run", Inside(env), path, w.invoke, fuel) == MeaningOf(w, group, path)
  {
    hide Steps, Finishes, EvalEach, Select;
    PredicatesOfAlternatives(ps);
    var ts := EvalEach(w.rt, w.scope, group.predicates);
    SelectInRange(group.selection, ts);
    assert |ps| == |group.predicates|;
    var enter := Runner(w, doc, env, path);
    match Select(group.selection, ts)
    case Branch(i) =>
      AlternativesAre(ps, i);
      MemberFinishes(w, group.members[i], enter, i, path, fuel - 1);
    case Default => MemberFinishes(w, group.members[group.default], enter, group.default, path, fuel - 1);
    case OnUnknown =>
    case ChoiceFailed =>
  }

  lemma MemberFinishes(w: World, ext: Extension, enter: (string, nat) -> Run, k: nat, path: seq<string>, fuel: nat)
    requires fuel > 1 && WellFormed(ext) && Finishes(enter)
    requires Steps(w, enter, Member(k), "done", ext, path)
    ensures enter(Member(k), fuel) == MeaningOf(w, ext, path + [Member(k)])
  {
    var r := MeaningOf(w, ext, path + [Member(k)]);
    assert r.events + [] == r.events;
  }

  // ----- Leaves --------------------------------------------------------------------------------------

  /** Every leaf names a component that existed before lowering. */
  ghost predicate AllAuthored(ext: Extension, authored: seq<Component>) {
    match ext
    case Leaf(_, _, _, _, _) => Targets(authored, ext) != []
    case Group(_, _, members, _, _, _) => forall m | m in members :: AllAuthored(m, authored)
  }

  lemma {:induction false} TargetsPrefix(a: seq<Component>, b: seq<Component>, leaf: Extension)
    requires leaf.Leaf? && a <= b
    ensures Targets(a, leaf) <= Targets(b, leaf)
    decreases |b|
  {
    if |a| < |b| {
      TargetsPrefix(a, b[..|b| - 1], leaf);
    } else {
      assert a == b;
    }
  }

  /** What a leaf's lifted bindings read inside its wrapper is what its own bindings read at the root. */
  lemma LeafReads(c: Compiler, w: World, st: State, final: State, inputs: map<string, Binding>,
                  authored: map<string, Binding>,
                  env: map<string, Json>)
    requires Good(c, st) && Extends(st, final) && Fits(w, final, st.ports.Keys, env)
    requires inputs.Keys == authored.Keys && forall p | p in inputs :: Carries(c, st, inputs[p], authored[p])
    ensures FetchAll(w.rt, Inside(env), inputs) == FetchAll(w.rt, w.scope, authored)
    ensures FetchAll(w.rt, w.scope, authored).Some?
  {
    forall p | p in inputs
      ensures Fetch(w.rt, Inside(env), inputs[p]) == Fetch(w.rt, w.scope, authored[p])
      ensures Fetch(w.rt, w.scope, authored[p]).Some?
    {
      assert Carries(c, st, inputs[p], authored[p]);
      if authored[p].Bound? { assert LiftKey(c, authored[p]) in st.ports.Keys; }
    }
    var inner, outer := FetchAll(w.rt, Inside(env), inputs), FetchAll(w.rt, w.scope, authored);
    assert inner.value.Keys == outer.value.Keys;
    assert forall p | p in inner.value :: inner.value[p] == outer.value[p];
    assert inner.value == outer.value;
  }

  lemma LeafRuns(w: World, leaf: Extension, target: Component, inputs: map<string, Binding>, on: map<string, string>,
                 doc: Workflow, env: map<string, Json>, path: seq<string>, fuel: nat)
    requires fuel > 1 && leaf.Leaf? && Targets(w.authored, leaf) == [target] && LeafRoutes(leaf, target) == Ok(on)
    requires FetchAll(w.rt, Inside(env), inputs) == FetchAll(w.rt, w.scope, LeafInputs(leaf.bindings))
    requires FetchAll(w.rt, w.scope, LeafInputs(leaf.bindings)).Some?
    requires "run" in doc.stages && doc.stages["run"] == LeafStage(leaf, target, inputs, on)
    requires "done" in doc.stages && doc.stages["done"] == Finish("succeeded")
    requires "rejected" in doc.stages && doc.stages["rejected"] == Finish("rejected")
    ensures RunStage(w.rt, doc, "run", Inside(env), path, w.invoke, fuel) == LeafMeaning(w, leaf, path)
  {
    var args := FetchAll(w.rt, w.scope, LeafInputs(leaf.bindings)).value;
    var r := (w.invoke)(target.ref, args, path + ["run"]);
    assert r.events + [] == r.events;
    assert RunStage(w.rt, doc, "done", Inside(env), path, w.invoke, fuel - 1) == Run(SUCCEEDED, []);
    assert RunStage(w.rt, doc, "rejected", Inside(env), path, w.invoke, fuel - 1) == Run(REJECTED, []);
  }

  lemma WrapperRuns(w: World, c: Compiler, final: State, ref: Ref, doc: Workflow, env: map<string, Json>,
                    path: seq<string>)
    requires Setting(c, w, final) && Holds(final.components, ref, doc) && doc.title == WRAPPER_TITLE
    ensures (w.invoke)(ref, env, path) == RunWorkflow(w.rt, doc, env, path, w.invoke)
  {
    var j :| 0 <= j < |final.components| && final.components[j].ref == ref && final.components[j].doc == doc;
    assert (w.invoke)(final.components[j].ref, env, path)
             == RunWorkflow(w.rt, final.components[j].doc, env, path, w.invoke);
  }

  /** To implement `ext` it is enough that running the sealed document means `ext` on inputs that fit it. */
  lemma ImplementsBy(c: Compiler, w: World, final: State, ref: Ref, doc: Workflow, ext: Extension)
    requires WellFormed(ext) && Setting(c, w, final)
    requires Holds(final.components, ref, doc) && doc.title == WRAPPER_TITLE
    requires forall env, path | Fits(w, final, doc.inputs.Keys, env) ::
               RunWorkflow(w.rt, doc, env, path, w.invoke) == MeaningOf(w, ext, path)
    ensures Implements(w, final, ref, ext)
  {
    forall other, env, path {:trigger Holds(final.components, ref, other), (w.invoke)(ref, env, path)} |
      Holds(final.components, ref, other) && Fits(w, final, other.inputs.Keys, env)
      ensures (w.invoke)(ref, env, path) == MeaningOf(w, ext, path)
    {
      HoldsOne(c, final.components, ref, doc, other);
      WrapperRuns(w, c, final, ref, doc, env, path);
    }
  }

  /** Stepping a leaf's wrapper whose inputs fit is evaluating the leaf. */
  lemma LeafWrapperRuns(c: Compiler, w: World, st: State, final: State, leaf: Extension, target: Component,
                        inputs: map<string, Binding>, on: map<string, string>, doc: Workflow, env: map<string, Json>,
                        path: seq<string>)
    requires leaf.Leaf? && Targets(w.authored, leaf) == [target] && LeafRoutes(leaf, target) == Ok(on)
    requires Good(c, st) && Extends(st, final) && Fits(w, final, st.ports.Keys, env)
    requires inputs.Keys == LeafInputs(leaf.bindings).Keys
             && forall p | p in inputs :: Carries(c, st, inputs[p], LeafInputs(leaf.bindings)[p])
    requires doc.entry == "run" && doc.stages == ENDINGS["run" := LeafStage(leaf, target, inputs, on)]
    ensures RunWorkflow(w.rt, doc, env, path, w.invoke) == MeaningOf(w, leaf, path)
  {
    hide Good, Extends, Fits, Carries, LeafRoutes, LeafMeaning, RunStage, LeafInputs, FetchAll;
    LeafReads(c, w, st, final, inputs, LeafInputs(leaf.bindings), env);
    assert "run" in doc.stages && "done" in ENDINGS && "rejected" in ENDINGS;
    LeafRuns(w, leaf, target, inputs, on, doc, env, path, |doc.stages| + 1);
  }

  lemma LeafImplements(c: Compiler, w: World, st: State, leaf: Extension, final: State)
    requires leaf.Leaf? && AllAuthored(leaf, w.authored) && w.authored <= st.components
    requires Setting(c, w, final) && Good(c, st) && Lower(c, st, leaf).Ok? && Extends(Lower(c, st, leaf).value.1, final)
    ensures Implements(w, final, Lower(c, st, leaf).value.0, leaf)
  {
    hide Good, Injective, Implements, Realises, SettlesAll, MeaningOf, RunWorkflow, Fits, LeafInputs, Carries;
    LiftBindingsKeep(c, st, leaf.bindings);
    var (inputs, st1) := LiftBindings(c, st, leaf.bindings).value;
    var (target, on) := FindTarget(st1.components, leaf).value;
    TargetsPrefix(w.authored, st1.components, leaf);
    assert Targets(w.authored, leaf) == [target];
    var stages := ENDINGS["run" := LeafStage(leaf, target, inputs, on)];
    SealKeeps(c, st1, leaf, "run", stages);
    var (ref, st2) := Lower(c, st, leaf).value;
    var doc := Wrapper(c, st1, WrapperId(c, leaf).value, "run", stages);
    HoldsMore(st2, final, ref, doc);
    ExtendsTransitive(st1, st2, final);
    forall env, path | Fits(w, final, doc.inputs.Keys, env)
      ensures RunWorkflow(w.rt, doc, env, path, w.invoke) == MeaningOf(w, leaf, path)
    {
      LeafWrapperRuns(c, w, st1, final, leaf, target, inputs, on, doc, env, path);
    }
    ImplementsBy(c, w, final, ref, doc, leaf);
  }

  // ----- Groups ---------------------------------------------------------------------------------------

  /** In a wrapper whose inputs fit, calling any lowered member is evaluating it. */
  lemma MembersMean(c: Compiler, w: World, st: State, final: State, refs: seq<Ref>, members: seq<Extension>,
                    env: map<string, Json>, path: seq<string>)
    requires Setting(c, w, final) && Good(c, st) && Extends(st, final)
    requires AllWithin(st, refs) && MembersImplement(w, final, refs, members) && Fits(w, final, st.ports.Keys, env)
    ensures forall k: nat | k < |refs| :: CallMeans(w, st, refs[k], members[k], env, path + [Member(k)])
  {
    forall k: nat | k < |refs| ensures CallMeans(w, st, refs[k], members[k], env, path + [Member(k)]) {
      MemberRuns(c, w, st, final, refs[k], members[k], env, path + [Member(k)]);
    }
  }

  lemma EndingsFinish(w: World, doc: Workflow, env: map<string, Json>, path: seq<string>)
    requires "done" in doc.stages && doc.stages["done"] == Finish("succeeded")
    ensures Finishes(Runner(w, doc, env, path))
  {
    var enter := Runner(w, doc, env, path);
    forall fuel: nat {:trigger enter("done", fuel)} | fuel > 0 ensures enter("done", fuel) == Run(SUCCEEDED, []) {
      assert enter("done", fuel) == RunStage(w.rt, doc, "done", Inside(env), path, w.invoke, fuel);
    }
  }

  /** If calling each member means the member, then the member stages of a wrapper step through them. */
  lemma MembersStep(w: World, st: State, refs: seq<Ref>, members: seq<Extension>, doc: Workflow, next: nat -> string,
                    env: map<string, Json>, path: seq<string>)
    requires |refs| == |members| && forall m | m in members :: WellFormed(m)
    requires forall k: nat | k < |refs| :: CallMeans(w, st, refs[k], members[k], env, path + [Member(k)])
    requires "rejected" in doc.stages && doc.stages["rejected"] == Finish("rejected")
    requires forall k: nat {:trigger refs[k]} | k < |refs| ::
               Member(k) in doc.stages && doc.stages[Member(k)]
                 == MemberCall(st.components, Offered(st.ports), refs[k], next(k))
    ensures forall k: nat {:trigger members[k]} | k < |members| ::
              Steps(w, Runner(w, doc, env, path), Member(k), next(k), members[k], path)
  {
    forall k: nat {:trigger members[k]} | k < |members|
      ensures Steps(w, Runner(w, doc, env, path), Member(k), next(k), members[k], path)
    {
      assert CallMeans(w, st, refs[k], members[k], env, path + [Member(k)]);
      CallSteps(w, st, refs[k], members[k], doc, Member(k), next(k), env, path);
    }
  }

  lemma SequenceImplements(c: Compiler, w: World, st: State, final: State, refs: seq<Ref>, group: Extension,
                           doc: Workflow, env: map<string, Json>, path: seq<string>)
    requires group.Group? && group.kind == SequenceOf && WellFormed(group)
    requires Setting(c, w, final) && Good(c, st) && Extends(st, final)
    requires AllWithin(st, refs) && MembersImplement(w, final, refs, group.members)
             && Fits(w, final, st.ports.Keys, env)
    requires doc.entry == Member(0) && doc.stages == SequenceStages(st.components, Offered(st.ports), refs, |refs|)
    ensures RunWorkflow(w.rt, doc, env, path, w.invoke) == MeaningOf(w, group, path)
  {
    hide Good, Injective, Implements, Realises, SettlesAll, Extends, AllWithin, CallMeans, SequenceStages;
    MembersMean(c, w, st, final, refs, group.members, env, path);
    SequenceStagesRun(w, st, refs, group.members, doc, env, path);
  }

  lemma SequenceStagesRun(w: World, st: State, refs: seq<Ref>, members: seq<Extension>, doc: Workflow,
                          env: map<string, Json>, path: seq<string>)
    requires |refs| == |members| > 0 && forall m | m in members :: WellFormed(m)
    requires forall k: nat | k < |refs| :: CallMeans(w, st, refs[k], members[k], env, path + [Member(k)])
    requires doc.stages == SequenceStages(st.components, Offered(st.ports), refs, |refs|)
    ensures RunStage(w.rt, doc, Member(0), Inside(env), path, w.invoke, |doc.stages| + 1)
              == MeaningFrom(w, members, 0, path)
  {
    SequenceStagesAre(st.components, Offered(st.ports), refs, |refs|);
    var n := |members|;
    MembersStep(w, st, refs, members, doc, (k: nat) => SequenceNext(k, n), env, path);
    EndingsFinish(w, doc, env, path);
    SequenceRuns(w, members, Runner(w, doc, env, path), 0, path, |doc.stages| + 1);
  }

  lemma ParallelImplements(c: Compiler, w: World, st: State, final: State, refs: seq<Ref>, group: Extension,
                           doc: Workflow, env: map<string, Json>, path: seq<string>)
    requires group.Group? && group.kind == ParallelOf && WellFormed(group)
    requires Setting(c, w, final) && Good(c, st) && Extends(st, final)
    requires AllWithin(st, refs) && MembersImplement(w, final, refs, group.members)
             && Fits(w, final, st.ports.Keys, env)
    requires doc.entry == "run"
             && doc.stages == ENDINGS["run" := ParallelStage(Branches(st.components, Offered(st.ports), refs))]
    ensures RunWorkflow(w.rt, doc, env, path, w.invoke) == MeaningOf(w, group, path)
  {
    hide Good, Injective, Implements, Realises, Extends, AllWithin, CallMeans, RunStage, ParallelStage, Branches;
    MembersMean(c, w, st, final, refs, group.members, env, path + ["run"]);
    assert "run" in doc.stages;
    ParallelRuns(w, st, refs, group.members, doc, env, path, |doc.stages| + 1);
  }

  lemma ChoiceReady(c: Compiler, w: World, st: State, st1: State, final: State, refs: seq<Ref>, members: seq<Extension>,
                    lifted: seq<Predicate>, ps: seq<Predicate>, env: map<string, Json>, path: seq<string>)
    requires Setting(c, w, final) && Good(c, st) && Extends(st, final)
    requires LiftPredicates(c, st, ps) == Ok((lifted, st1)) && Extends(st1, final)
    requires AllWithin(st, refs) && MembersImplement(w, final, refs, members) && Fits(w, final, st1.ports.Keys, env)
    ensures st1.components == st.components && EvalEach(w.rt, Inside(env), lifted) == EvalEach(w.rt, w.scope, ps)
    ensures forall k: nat | k < |refs| :: CallMeans(w, st, refs[k], members[k], env, path + [Member(k)])
  {
    PredicatesRead(c, w, st, st1, final, lifted, ps, env);
    MembersMean(c, w, st, final, refs, members, env, path);
  }

  lemma PredicatesRead(c: Compiler, w: World, st: State, st1: State, final: State, lifted: seq<Predicate>,
                       ps: seq<Predicate>,
                       env: map<string, Json>)
    requires Good(c, st) && LiftPredicates(c, st, ps) == Ok((lifted, st1))
    requires Extends(st1, final) && Fits(w, final, st1.ports.Keys, env)
    ensures st1.components == st.components && EvalEach(w.rt, Inside(env), lifted) == EvalEach(w.rt, w.scope, ps)
    ensures Fits(w, final, st.ports.Keys, env)
  {
    LiftPredicatesKeep(c, st, ps, w.rt, w.scope, env);
    assert Supplies(w.rt, w.scope, env, st1.external);
  }

  lemma ChoiceStagesRun(w: World, st: State, refs: seq<Ref>, ps: seq<Predicate>, group: Extension, doc: Workflow,
                        env: map<string, Json>, path: seq<string>)
    requires group.Group? && group.kind == ChoiceOf && WellFormed(group) && |refs| == |group.members|
    requires forall k: nat | k < |refs| :: CallMeans(w, st, refs[k], group.members[k], env, path + [Member(k)])
    requires EvalEach(w.rt, Inside(env), ps) == EvalEach(w.rt, w.scope, group.predicates)
    requires doc.stages == ChoiceStages(st.components, Offered(st.ports), refs, |refs|)["run" := ChoiceStage(group, ps)]
    ensures RunStage(w.rt, doc, "run", Inside(env), path, w.invoke, |doc.stages| + 1) == MeaningOf(w, group, path)
  {
    hide CallMeans, Steps, Finishes, EvalEach, RunStage, MeaningOf;
    var stages := ChoiceStages(st.components, Offered(st.ports), refs, |refs|);
    ChoiceStagesAre(st.components, Offered(st.ports), refs, |refs|);
    assert MemberStages(stages, |refs|);
    forall k: nat {:trigger refs[k]} | k < |refs|
      ensures Member(k) in doc.stages
              && doc.stages[Member(k)] == MemberCall(st.components, Offered(st.ports), refs[k], "done")
    {
      MemberNames(k, k);
      assert Member(k) in stages;
    }
    MembersStep(w, st, refs, group.members, doc, (k: nat) => "done", env, path);
    EndingsFinish(w, doc, env, path);
    assert stages.Keys <= doc.stages.Keys;
    SubsetSize(stages.Keys, doc.stages.Keys);
    ChoiceRuns(w, group, ps, doc, env, path, |doc.stages| + 1);
  }

  // ----- The theorem ------------------------------------------------------------------------------------

  /** Stepping a group's wrapper whose inputs fit is evaluating the group. */
  lemma GroupRuns(c: Compiler, w: World, st: State, group: Extension, final: State, doc: Workflow,
                  env: map<string, Json>, path: seq<string>)
    requires group.Group? && WellFormed(group) && Setting(c, w, final) && GroupWrapper(c, st, group).Ok?
    requires var (refs, st1) := LowerMembers(c, st, group.members).value;
             Good(c, st1) && Extends(st1, final) && AllWithin(st1, refs)
             && MembersImplement(w, final, refs, group.members)
    requires var (entry, stages, before) := GroupWrapper(c, st, group).value;
             Extends(before, final) && doc.entry == entry && doc.stages == stages
             && Fits(w, final, before.ports.Keys, env)
    ensures RunWorkflow(w.rt, doc, env, path, w.invoke) == MeaningOf(w, group, path)
  {
    hide Good, Injective, Implements, Realises, SettlesAll, Extends, Fits, AllWithin, Within, RunWorkflow, MeaningOf,
         LowerMembers;
    hide SequenceStages, ChoiceStages, Branches;
    var (refs, st1) := LowerMembers(c, st, group.members).value;
    var (entry, stages, before) := GroupWrapper(c, st, group).value;
    match group.kind
    case SequenceOf => SequenceImplements(c, w, st1, final, refs, group, doc, env, path);
    case ParallelOf => ParallelImplements(c, w, st1, final, refs, group, doc, env, path);
    case ChoiceOf => ChoiceImplements(c, w, st1, before, final, refs, group, doc, env, path);
  }

  lemma ChoiceImplements(c: Compiler, w: World, st: State, before: State, final: State, refs: seq<Ref>,
                         group: Extension, doc: Workflow, env: map<string, Json>, path: seq<string>)
    requires group.Group? && group.kind == ChoiceOf && WellFormed(group) && |refs| == |group.members|
    requires Setting(c, w, final) && Good(c, st) && Extends(st, final) && Extends(before, final)
    requires AllWithin(st, refs) && MembersImplement(w, final, refs, group.members)
             && Fits(w, final, before.ports.Keys, env)
    requires LiftPredicates(c, st, group.predicates).Ok? && LiftPredicates(c, st, group.predicates).value.1 == before
    requires var ps := LiftPredicates(c, st, group.predicates).value.0;
             doc.entry == "run"
             && doc.stages == ChoiceStages(before.components, Offered(st.ports), refs, |refs|)
                              ["run" := ChoiceStage(group, ps)]
    ensures RunWorkflow(w.rt, doc, env, path, w.invoke) == MeaningOf(w, group, path)
  {
    hide Good, Injective, Implements, Realises, SettlesAll, Extends, Fits, AllWithin, Within, RunStage, MeaningOf,
         CallMeans, ChoiceStages;
    var (ps, _) := LiftPredicates(c, st, group.predicates).value;
    ChoiceReady(c, w, st, before, final, refs, group.members, ps, group.predicates, env, path);
    ChoiceStagesRun(w, st, refs, ps, group, doc, env, path);
  }

  lemma {:induction false} GroupImplements(c: Compiler, w: World, st: State, group: Extension, final: State)
    requires group.Group? && WellFormed(group) && AllAuthored(group, w.authored) && w.authored <= st.components
    requires Setting(c, w, final) && Good(c, st) && Lower(c, st, group).Ok?
             && Extends(Lower(c, st, group).value.1, final)
    ensures Implements(w, final, Lower(c, st, group).value.0, group)
    decreases group, 0
  {
    hide Good, Injective, Implements, Realises, SettlesAll, Extends, Fits, Within, RunWorkflow, MeaningOf;
    LowerMembersKeep(c, st, group.members);
    var (refs, st1) := LowerMembers(c, st, group.members).value;
    var (ref, st2) := Lower(c, st, group).value;
    GroupSeals(c, st, group);
    var (entry, stages, before) := GroupWrapper(c, st, group).value;
    ExtendsTransitive(before, st2, final);
    ExtendsTransitive(st1, before, final);
    LowerMembersImplement(c, w, st, group.members, final);
    var doc := Wrapper(c, before, WrapperId(c, group).value, entry, stages);
    HoldsMore(st2, final, ref, doc);
    forall env, path | Fits(w, final, doc.inputs.Keys, env)
      ensures RunWorkflow(w.rt, doc, env, path, w.invoke) == MeaningOf(w, group, path)
    {
      GroupRuns(c, w, st, group, final, doc, env, path);
    }
    ImplementsBy(c, w, final, ref, doc, group);
  }

  /**
   The invariant behind the theorems: at any point of a compilation, invoking
   a lowered contribution with inputs that hold its lifted bindings evaluates
   the contribution.
   */
  lemma {:induction false} LowerImplements(c: Compiler, w: World, st: State, ext: Extension, final: State)
    requires WellFormed(ext) && AllAuthored(ext, w.authored) && w.authored <= st.components
    requires Setting(c, w, final) && Good(c, st) && Lower(c, st, ext).Ok? && Extends(Lower(c, st, ext).value.1, final)
    ensures Implements(w, final, Lower(c, st, ext).value.0, ext)
    decreases ext, 1
  {
    if ext.Leaf? {
      LeafImplements(c, w, st, ext, final);
    } else {
      GroupImplements(c, w, st, ext, final);
    }
  }

  lemma {:induction false} LowerMembersImplement(c: Compiler, w: World, st: State, members: seq<Extension>,
                                                 final: State)
    requires forall m | m in members :: WellFormed(m) && AllAuthored(m, w.authored)
    requires w.authored <= st.components
    requires Setting(c, w, final) && Good(c, st) && LowerMembers(c, st, members).Ok?
             && Extends(LowerMembers(c, st, members).value.1, final)
    ensures MembersImplement(w, final, LowerMembers(c, st, members).value.0, members)
    decreases members, 0
  {
    hide Good, Injective, Implements, Realises, SettlesAll, Within, MeaningOf, Fits, Lower;
    if members != [] {
      var front, last := members[..|members| - 1], members[|members| - 1];
      var (refs, st1) := LowerMembers(c, st, front).value;
      var (ref, st2) := Lower(c, st1, last).value;
      LowerMembersKeep(c, st, front);
      LowerKeeps(c, st1, last);
      ExtendsTransitive(st1, st2, final);
      LowerMembersImplement(c, w, st, front, final);
      LowerImplements(c, w, st1, last, final);
      var all := refs + [ref];
      forall i | 0 <= i < |all| ensures Implements(w, final, all[i], members[i]) {
        if i < |refs| { assert all[i] == refs[i] && members[i] == front[i]; }
      }
    }
  }
}
