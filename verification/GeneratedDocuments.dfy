/**
 The documents the compiler writes, field by field: what every generated
 workflow states, which component each of its stages names and how, and which
 stages stand for which part of the contribution.
 */
module GeneratedDocuments {
  import opened Prelude
  import opened Flow
  import opened Extensions
  import opened Lowering
  import opened Meaning
  import opened LoweringProof
  import opened LoweringTheorems
  import opened LoweringFacts

  // ----- What a generated document states --------------------------------------------------------

  /** A component of this kind is listed under the reference. */
  ghost predicate HasComponent(components: seq<Component>, ref: Ref, kind: string) {
    exists i :: 0 <= i < |components| && components[i].ref == ref && components[i].kind == kind
  }

  /**
   A call names a listed workflow and a step stage a listed step. A fan-out
   waits for all of its branches at once, each a listed workflow; branches
   and alternatives are numbered.
   */
  ghost predicate StageFits(components: seq<Component>, stage: Stage) {
    match stage
    case Invoke(kind, ref, _, _, impossible) =>
      || (kind == "call" && HasComponent(components, ref, "workflow"))
      || (kind == "step" && HasComponent(components, ref, "step"))
    case Parallel(branches, join, maxParallelism, _) =>
      && maxParallelism == |branches| && join == Join("all", ["succeeded"], "wait")
      && forall i | 0 <= i < |branches| ::
           branches[i].id == "member-" + Decimal(i) && HasComponent(components, branches[i].ref, "workflow")
    case Choice(_, alternatives, _, onUnknown) =>
      && onUnknown == "rejected"
      && forall i | 0 <= i < |alternatives| :: alternatives[i].id == "alternative-" + Decimal(i)
    case Finish(_) => true
  }

  ghost predicate StagesFit(components: seq<Component>, stages: map<string, Stage>) {
    && "done" in stages && stages["done"] == Finish("succeeded")
    && "rejected" in stages && stages["rejected"] == Finish("rejected")
    && (forall id | id in stages :: StageFits(components, stages[id]))
    && forall id | id in stages && stages[id].Finish? :: id in {"done", "rejected"}
  }

  /** Every declared input is required, and named and typed by a source of the root. */
  ghost predicate InputsFit(c: Compiler, components: seq<Component>, inputs: map<string, InputPort>) {
    forall p | p in inputs :: exists b :: KeyIs(c, b, p) && TypedAs(c, components, b, inputs[p])
  }

  /** The identity is in the namespace of the root and not too long. */
  ghost predicate IdIn(root: string, id: string) {
    |id| <= 128 && exists namespace :: IsNamespace(root, namespace) && namespace + ":workflow/" <= id
  }

  /** A generated workflow is listed without a name, under the digest of its document, and is of the root's revision. */
  ghost predicate IsWrapper(c: Compiler, component: Component) {
    var doc := component.doc;
    && component.kind == "workflow" && component.name == "" && component.names == []
    && component.ref == Ref(doc.id, c.root.version, (c.digest)(doc)) && IdIn(c.root.id, doc.id)
    && doc.schemaVersion == c.root.schemaVersion && doc.version == c.root.version
    && doc.title == "Composed contribution" && doc.limits == c.root.limits && doc.policy == c.root.policy
    && doc.rest == "" && doc.outputs == map[] && doc.outcomes == ["succeeded", "rejected"]
  }

  ghost predicate DocumentFits(c: Compiler, components: seq<Component>, component: Component) {
    && IsWrapper(c, component)
    && StagesFit(components, component.doc.stages) && InputsFit(c, components, component.doc.inputs)
  }

  /** From `base` on, the list holds documents that fit. */
  ghost predicate DocumentsFit(c: Compiler, components: seq<Component>, base: nat) {
    forall j | base <= j < |components| :: DocumentFits(c, components, components[j])
  }

  /** Only workflows carry the title of a generated one. */
  ghost predicate TitlesFit(components: seq<Component>) {
    forall j | 0 <= j < |components| && components[j].doc.title == WRAPPER_TITLE :: components[j].kind == "workflow"
  }

  lemma HasComponentMore(components: seq<Component>, more: seq<Component>, ref: Ref, kind: string)
    requires components <= more && HasComponent(components, ref, kind)
    ensures HasComponent(more, ref, kind)
  {
    var i :| 0 <= i < |components| && components[i].ref == ref && components[i].kind == kind;
    assert more[i] == components[i];
  }

  lemma StagesFitMore(components: seq<Component>, more: seq<Component>, stages: map<string, Stage>)
    requires components <= more && StagesFit(components, stages)
    ensures StagesFit(more, stages)
  {
    hide HasComponent;
    forall ref, kind | HasComponent(components, ref, kind) ensures HasComponent(more, ref, kind) {
      HasComponentMore(components, more, ref, kind);
    }
    forall id | id in stages ensures StageFits(more, stages[id]) { assert StageFits(components, stages[id]); }
  }

  lemma TypedMore(c: Compiler, components: seq<Component>, more: seq<Component>, b: Binding, input: InputPort)
    requires components <= more && TypedAs(c, components, b, input)
    ensures TypedAs(c, more, b, input)
  {
    var port: Port :| PortOf(c, components, b.source, port) && input.port.format == port.format
                      && (b.projection.None? ==> input.port.schema == port.schema);
    assert PortOf(c, more, b.source, port) by {
      if b.source.StageOutput? {
        var stage, name := c.root.stages[b.source.stage], b.source.port;
        var i: nat :| Declares(components, stage, name, i) && port == components[i].doc.outputs[name];
        assert more[i] == components[i] && Declares(more, stage, name, i);
      }
    }
  }

  lemma DocumentsFitMore(c: Compiler, components: seq<Component>, more: seq<Component>, component: Component)
    requires components <= more && DocumentFits(c, components, component)
    ensures DocumentFits(c, more, component)
  {
    hide IsWrapper, KeyIs, TypedAs, StagesFit;
    StagesFitMore(components, more, component.doc.stages);
    forall p | p in component.doc.inputs
      ensures exists b :: KeyIs(c, b, p) && TypedAs(c, more, b, component.doc.inputs[p])
    {
      var b :| KeyIs(c, b, p) && TypedAs(c, components, b, component.doc.inputs[p]);
      TypedMore(c, components, more, b, component.doc.inputs[p]);
    }
  }

  // ----- Lifted inputs ---------------------------------------------------------------------------------

  /** Every port is that of a lifted binding, named and typed as its source says. */
  ghost predicate PortsFit(c: Compiler, st: State) {
    forall k | k in st.ports ::
      k in st.external && KeyIs(c, st.external[k], k) && TypedAs(c, st.components, st.external[k], st.ports[k])
  }

  lemma LiftFits(c: Compiler, st: State, b: Binding)
    requires PortsFit(c, st) && Lift(c, st, b).Ok?
    ensures PortsFit(c, Lift(c, st, b).value.1) && Lift(c, st, b).value.1.components == st.components
  {
    hide KeyIs, TypedAs, Readable, LiftKey, Lift;
    if b.Bound? {
      LiftedAs(c, st, b);
    } else {
      LiteralStays(c, st, b);
    }
  }

  lemma LiteralStays(c: Compiler, st: State, b: Binding)
    requires b.Literal?
    ensures Lift(c, st, b) == Ok((b, st))
  {
  }

  lemma {:induction false} LiftBindingsFit(c: Compiler, st: State, bs: seq<(string, Binding)>)
    requires PortsFit(c, st) && LiftBindings(c, st, bs).Ok?
    ensures PortsFit(c, LiftBindings(c, st, bs).value.1) && LiftBindings(c, st, bs).value.1.components == st.components
  {
    hide PortsFit, Lift;
    if bs != [] {
      LiftBindingsFit(c, st, bs[..|bs| - 1]);
      LiftFits(c, LiftBindings(c, st, bs[..|bs| - 1]).value.1, bs[|bs| - 1].1);
    }
  }

  lemma LiftFieldFits(c: Compiler, st: State, ref: FieldRef)
    requires PortsFit(c, st) && LiftField(c, st, ref).Ok?
    ensures PortsFit(c, LiftField(c, st, ref).value.1) && LiftField(c, st, ref).value.1.components == st.components
  {
    hide PortsFit, Lift;
    if !ref.source.OtherSource? { LiftFits(c, st, Bound(ref.source, None)); }
  }

  lemma LiftOperandFits(c: Compiler, st: State, operand: Operand)
    requires PortsFit(c, st) && LiftOperand(c, st, operand).Ok?
    ensures PortsFit(c, LiftOperand(c, st, operand).value.1)
    ensures LiftOperand(c, st, operand).value.1.components == st.components
  {
    hide PortsFit, LiftField;
    if operand.FieldOperand? { LiftFieldFits(c, st, operand.ref); }
  }

  lemma {:induction false} LiftPredicateFits(c: Compiler, st: State, p: Predicate)
    requires PortsFit(c, st) && LiftPredicate(c, st, p).Ok?
    ensures PortsFit(c, LiftPredicate(c, st, p).value.1)
    ensures LiftPredicate(c, st, p).value.1.components == st.components
    decreases p, 1
  {
    hide PortsFit, LiftField, LiftOperand;
    match p
    case Compare(_, left, right) =>
      LiftOperandFits(c, st, left);
      LiftOperandFits(c, LiftOperand(c, st, left).value.1, right);
    case Exists(ref) => LiftFieldFits(c, st, ref);
    case Not(arg) => LiftPredicateFits(c, st, arg);
    case All(args) => LiftPredicatesFit(c, st, args);
    case Any(args) => LiftPredicatesFit(c, st, args);
  }

  lemma {:induction false} LiftPredicatesFit(c: Compiler, st: State, ps: seq<Predicate>)
    requires PortsFit(c, st) && LiftPredicates(c, st, ps).Ok?
    ensures PortsFit(c, LiftPredicates(c, st, ps).value.1)
    ensures LiftPredicates(c, st, ps).value.1.components == st.components
    decreases ps, 0
  {
    hide PortsFit;
    if ps != [] {
      LiftPredicatesFit(c, st, ps[..|ps| - 1]);
      LiftPredicateFits(c, LiftPredicates(c, st, ps[..|ps| - 1]).value.1, ps[|ps| - 1]);
    }
  }

  // ----- Which document stands for what ------------------------------------------------------------------

  /** The document under the reference stands for the contribution. */
  ghost predicate Stands(components: seq<Component>, ext: Extension, ref: Ref)
    decreases ext, 1
  {
    exists doc :: Holds(components, ref, doc) && DocumentStands(components, ext, doc)
  }

  /**
   A leaf is one stage that names its target as what it is, with the leaf's
   impossible verdicts, ports and routes; a group calls one document for each
   member, by the member's number.
   */
  ghost predicate DocumentStands(components: seq<Component>, ext: Extension, doc: Workflow)
    decreases ext, 0
  {
    match ext
    case Leaf(_, _, _, _, _) => "run" in doc.stages && StandsForLeaf(components, ext, doc.stages["run"])
    case Group(_, kind, members, _, _, _) =>
      forall i | 0 <= i < |members| :: MemberStands(components, kind, |members|, doc, i, members[i])
  }

  /** The document calls member `i` by one that stands for it. */
  ghost predicate MemberStands(components: seq<Component>, kind: Kind, n: nat, doc: Workflow, i: nat, member: Extension)
    decreases member, 2
  {
    exists ref :: CallsMember(kind, n, doc, i, ref) && Stands(components, member, ref)
  }

  ghost predicate StandsForLeaf(components: seq<Component>, leaf: Extension, stage: Stage)
    requires leaf.Leaf?
  {
    && stage.Invoke? && stage.kind == (if leaf.call != "" then "call" else "step")
    && stage.impossible == leaf.impossible
    && (forall p :: p in stage.inputs <==> exists i :: 0 <= i < |leaf.bindings| && leaf.bindings[i].0 == p)
    && exists t: nat :: Calls(components, leaf, stage, t)
  }

  /** The stage names component `t`, which is what the leaf is aimed at, and has the routes of the leaf. */
  ghost predicate Calls(components: seq<Component>, leaf: Extension, stage: Stage, t: nat)
    requires leaf.Leaf? && stage.Invoke?
  {
    && t < |components| && components[t].ref == stage.ref && IsTarget(components[t], leaf)
    && RoutesAre(leaf, components[t], stage.on)
  }

  ghost predicate CallsMember(kind: Kind, n: nat, doc: Workflow, i: nat, ref: Ref) {
    if kind == ParallelOf then
      && "run" in doc.stages && doc.stages["run"].Parallel? && |doc.stages["run"].branches| == n && i < n
      && doc.stages["run"].branches[i].id == "member-" + Decimal(i) && doc.stages["run"].branches[i].ref == ref
    else
      && var id := "member-" + Decimal(i);
         && id in doc.stages && doc.stages[id].Invoke? && doc.stages[id].kind == "call" && doc.stages[id].ref == ref
         && doc.stages[id].impossible == []
  }

  lemma {:induction false} StandsMore(components: seq<Component>, more: seq<Component>, ext: Extension, ref: Ref)
    requires components <= more && Stands(components, ext, ref)
    ensures Stands(more, ext, ref)
    decreases ext
  {
    hide CallsMember, IsTarget, RoutesAre;
    var doc :| Holds(components, ref, doc) && DocumentStands(components, ext, doc);
    var j :| 0 <= j < |components| && components[j].ref == ref && components[j].doc == doc;
    assert more[j] == components[j];
    match ext
    case Leaf(_, _, _, _, _) =>
      var stage := doc.stages["run"];
      var t: nat :| Calls(components, ext, stage, t);
      assert more[t] == components[t] && Calls(more, ext, stage, t);
      assert StandsForLeaf(more, ext, stage) && DocumentStands(more, ext, doc) && Holds(more, ref, doc);
    case Group(_, kind, members, _, _, _) =>
      forall i | 0 <= i < |members|
        ensures MemberStands(more, kind, |members|, doc, i, members[i])
      {
        assert MemberStands(components, kind, |members|, doc, i, members[i]);
        var r :| CallsMember(kind, |members|, doc, i, r) && Stands(components, members[i], r);
        StandsMore(components, more, members[i], r);
      }
      assert DocumentStands(more, ext, doc) && Holds(more, ref, doc);
  }

  // ----- Lowering writes such documents --------------------------------------------------------------------

  /** What holds of the compiler's state at any point. */
  ghost predicate Fit(c: Compiler, st: State, base: nat) {
    PortsFit(c, st) && DocumentsFit(c, st.components, base) && TitlesFit(st.components)
  }

  lemma SealFits(c: Compiler, st: State, base: nat, ext: Extension, entry: string, stages: map<string, Stage>)
    requires Injective(c) && Good(c, st) && Fit(c, st, base) && Seal(c, st, ext, entry, stages).Ok?
    requires StagesFit(st.components, stages)
    ensures var (ref, st1) := Seal(c, st, ext, entry, stages).value;
            && Fit(c, st1, base) && st.components <= st1.components && HasComponent(st1.components, ref, "workflow")
            && exists doc :: Holds(st1.components, ref, doc) && doc.stages == stages
  {
    hide StagesFit, TypedAs, KeyIs, IdIn, Injective, Good, DocumentFits;
    SealKeeps(c, st, ext, entry, stages);
    var (ref, st1) := Seal(c, st, ext, entry, stages).value;
    var doc := Wrapper(c, st, WrapperId(c, ext).value, entry, stages);
    assert Holds(st1.components, ref, doc) && doc.title == WRAPPER_TITLE;
    if |st1.components| > |st.components| {
      var last := st1.components[|st.components|];
      assert st1.components == st.components + [last] && last == Component("workflow", ref, "", [], doc);
      WrapperFits(c, st, ext, entry, stages);
      forall j | base <= j < |st1.components| ensures DocumentFits(c, st1.components, st1.components[j]) {
        DocumentsFitMore(c, st.components, st1.components, st1.components[j]);
      }
      forall k | k in st1.ports ensures TypedAs(c, st1.components, st1.external[k], st1.ports[k]) {
        TypedMore(c, st.components, st1.components, st1.external[k], st1.ports[k]);
      }
    }
  }

  lemma WrapperFits(c: Compiler, st: State, ext: Extension, entry: string, stages: map<string, Stage>)
    requires PortsFit(c, st) && StagesFit(st.components, stages) && WrapperId(c, ext).Ok?
    ensures var doc := Wrapper(c, st, WrapperId(c, ext).value, entry, stages);
            var ref := Ref(doc.id, doc.version, (c.digest)(doc));
            DocumentFits(c, st.components, Component("workflow", ref, "", [], doc))
  {
    hide StagesFit, TypedAs, KeyIs, WrapperId;
    NamespaceIs(c.root.id);
    WrapperIdIs(c, ext, Namespace(c.root.id));
    assert IdIn(c.root.id, WrapperId(c, ext).value);
  }

  lemma LeafStageFits(c: Compiler, st: State, leaf: Extension)
    requires leaf.Leaf? && Good(c, st) && LiftBindings(c, st, leaf.bindings).Ok?
    requires FindTarget(LiftBindings(c, st, leaf.bindings).value.1.components, leaf).Ok?
    ensures var (inputs, st1) := LiftBindings(c, st, leaf.bindings).value;
            var (target, on) := FindTarget(st1.components, leaf).value;
            var stage := LeafStage(leaf, target, inputs, on);
            StageFits(st1.components, stage) && StandsForLeaf(st1.components, leaf, stage)
  {
    hide IsTarget, Good, RoutesAre, Carries, OneTarget, FindTarget;
    LiftBindingsKeep(c, st, leaf.bindings);
    LeafPorts(leaf.bindings);
    var (inputs, st1) := LiftBindings(c, st, leaf.bindings).value;
    var (target, on) := FindTarget(st1.components, leaf).value;
    var t := FoundAt(st1.components, leaf);
    assert Calls(st1.components, leaf, LeafStage(leaf, target, inputs, on), t);
  }

  lemma FoundAt(components: seq<Component>, leaf: Extension) returns (t: nat)
    requires leaf.Leaf? && FindTarget(components, leaf).Ok?
    ensures t < |components| && IsTarget(components[t], leaf)
    ensures components[t].kind == if leaf.call != "" then "workflow" else "step"
    ensures FindTarget(components, leaf).value.0 == components[t]
    ensures RoutesAre(leaf, components[t], FindTarget(components, leaf).value.1)
  {
    hide FindTarget, RoutesAre, HasName;
    TargetFoundExactlyWhen(components, leaf);
    t :| OneTarget(components, leaf, t) && Routed(leaf, components[t]);
  }

  lemma {:induction false} LeafPorts(bs: seq<(string, Binding)>)
    ensures forall p :: p in LeafInputs(bs) <==> exists i :: 0 <= i < |bs| && bs[i].0 == p
  {
    if bs != [] {
      var front := bs[..|bs| - 1];
      LeafPorts(front);
      forall p ensures p in LeafInputs(bs) <==> exists i :: 0 <= i < |bs| && bs[i].0 == p {
        if p in LeafInputs(front) {
          var i :| 0 <= i < |front| && front[i].0 == p;
          assert bs[i].0 == p;
        }
        if i :| 0 <= i < |bs| && bs[i].0 == p { assert i < |front| ==> front[i].0 == p; }
      }
    }
  }

  ghost predicate AllCallable(components: seq<Component>, refs: seq<Ref>) {
    forall i | 0 <= i < |refs| :: HasComponent(components, refs[i], "workflow")
  }

  lemma {:induction false} SequenceStagesFit(components: seq<Component>, offered: map<string, Binding>, refs: seq<Ref>,
                                             k: nat)
    requires AllCallable(components, refs) && k <= |refs|
    ensures StagesFit(components, SequenceStages(components, offered, refs, k))
  {
    if k == 0 {
      EndingsFit(components);
    } else {
      SequenceStagesFit(components, offered, refs, k - 1);
      MemberNames(k - 1, k - 1);
    }
  }

  lemma {:induction false} ChoiceStagesFit(components: seq<Component>, offered: map<string, Binding>, refs: seq<Ref>,
                                           k: nat)
    requires AllCallable(components, refs) && k <= |refs|
    ensures StagesFit(components, ChoiceStages(components, offered, refs, k))
  {
    if k == 0 {
      EndingsFit(components);
    } else {
      ChoiceStagesFit(components, offered, refs, k - 1);
      MemberNames(k - 1, k - 1);
    }
  }

  lemma EndingsFit(components: seq<Component>)
    ensures StagesFit(components, ENDINGS)
  {
    assert "done" != "rejected" by { assert |"done"| != |"rejected"|; }
  }

  lemma RunFits(components: seq<Component>, stages: map<string, Stage>, stage: Stage)
    requires StagesFit(components, stages) && StageFits(components, stage) && !stage.Finish?
    ensures StagesFit(components, stages["run" := stage])
  {
    hide StageFits;
    assert "run" != "done" && "run" != "rejected" by { assert |"run"| == 3; }
  }

  lemma ParallelFits(components: seq<Component>, offered: map<string, Binding>, refs: seq<Ref>)
    requires AllCallable(components, refs)
    ensures StageFits(components, ParallelStage(Branches(components, offered, refs)))
  {
    hide HasComponent;
    forall i | 0 <= i < |refs|
      ensures var branch := Branches(components, offered, refs)[i];
              branch.id == "member-" + Decimal(i) && HasComponent(components, branch.ref, "workflow")
    {
      BranchesAre(components, offered, refs, i);
    }
  }

  lemma {:induction false} AlternativeIds(ps: seq<Predicate>, i: nat)
    requires i < |ps|
    ensures Alternatives(ps)[i].id == "alternative-" + Decimal(i)
  {
    if i < |ps| - 1 { AlternativeIds(ps[..|ps| - 1], i); }
  }

  lemma ChoiceFits(components: seq<Component>, group: Extension, ps: seq<Predicate>)
    requires group.Group?
    ensures StageFits(components, ChoiceStage(group, ps))
  {
    forall i | 0 <= i < |ps| ensures Alternatives(ps)[i].id == "alternative-" + Decimal(i) { AlternativeIds(ps, i); }
  }

  /** The documents of lowered members are listed and stand for them. */
  ghost predicate MembersStand(components: seq<Component>, members: seq<Extension>, refs: seq<Ref>) {
    |refs| == |members| && forall i | 0 <= i < |members| :: Stands(components, members[i], refs[i])
  }

  lemma MembersStandMore(components: seq<Component>, more: seq<Component>, members: seq<Extension>, refs: seq<Ref>)
    requires components <= more && MembersStand(components, members, refs) && AllCallable(components, refs)
    ensures MembersStand(more, members, refs) && AllCallable(more, refs)
  {
    hide Stands;
    forall i | 0 <= i < |members|
      ensures Stands(more, members[i], refs[i]) && HasComponent(more, refs[i], "workflow")
    {
      StandsMore(components, more, members[i], refs[i]);
      HasComponentMore(components, more, refs[i], "workflow");
    }
  }

  lemma {:induction false} LowerFits(c: Compiler, st: State, base: nat, ext: Extension)
    requires Injective(c) && Good(c, st) && Fit(c, st, base) && Lower(c, st, ext).Ok?
    ensures var (ref, st1) := Lower(c, st, ext).value;
            && Fit(c, st1, base) && st.components <= st1.components && HasComponent(st1.components, ref, "workflow")
            && Stands(st1.components, ext, ref)
    decreases ext, 1
  {
    hide Injective, Good, Fit, HasComponent, StagesFit, StageFits, StandsForLeaf;
    match ext
    case Leaf(_, _, _, bindings, _) => LeafFits(c, st, base, ext);
    case Group(_, _, _, _, _, _) => GroupFits(c, st, base, ext);
  }

  lemma LeafFits(c: Compiler, st: State, base: nat, leaf: Extension)
    requires leaf.Leaf? && Injective(c) && Good(c, st) && Fit(c, st, base) && Lower(c, st, leaf).Ok?
    ensures var (ref, st1) := Lower(c, st, leaf).value;
            && Fit(c, st1, base) && st.components <= st1.components && HasComponent(st1.components, ref, "workflow")
            && Stands(st1.components, leaf, ref)
  {
    hide Injective, Good, DocumentsFit, PortsFit, TitlesFit, HasComponent, StagesFit, StageFits, StandsForLeaf, Seal;
    LiftBindingsKeep(c, st, leaf.bindings);
    LiftBindingsFit(c, st, leaf.bindings);
    var (inputs, before) := LiftBindings(c, st, leaf.bindings).value;
    var (target, on) := FindTarget(before.components, leaf).value;
    var stage := LeafStage(leaf, target, inputs, on);
    LeafStageFits(c, st, leaf);
    EndingsFit(before.components);
    RunFits(before.components, ENDINGS, stage);
    SealFits(c, before, base, leaf, "run", ENDINGS["run" := stage]);
    var (ref, st1) := Lower(c, st, leaf).value;
    var doc :| Holds(st1.components, ref, doc) && doc.stages == ENDINGS["run" := stage];
    LeafStandsMore(before.components, st1.components, leaf, stage);
    assert DocumentStands(st1.components, leaf, doc);
  }

  lemma LeafStandsMore(components: seq<Component>, more: seq<Component>, leaf: Extension, stage: Stage)
    requires components <= more && leaf.Leaf? && StandsForLeaf(components, leaf, stage)
    ensures StandsForLeaf(more, leaf, stage)
  {
    hide IsTarget, RoutesAre;
    var t: nat :| Calls(components, leaf, stage, t);
    assert more[t] == components[t] && Calls(more, leaf, stage, t);
  }

  lemma {:induction false} GroupFits(c: Compiler, st: State, base: nat, group: Extension)
    requires group.Group? && Injective(c) && Good(c, st) && Fit(c, st, base) && Lower(c, st, group).Ok?
    ensures var (ref, st1) := Lower(c, st, group).value;
            && Fit(c, st1, base) && st.components <= st1.components && HasComponent(st1.components, ref, "workflow")
            && Stands(st1.components, group, ref)
    decreases group, 0
  {
    hide Injective, Good, Fit, HasComponent, StagesFit, Seal, LowerMembers, MembersStand, AllCallable, CallsMember;
    MembersFit(c, st, base, group.members);
    GroupSeals(c, st, group);
    var (refs, st0) := LowerMembers(c, st, group.members).value;
    var (entry, stages, before) := GroupWrapper(c, st, group).value;
    GroupStagesFit(c, st, base, group);
    SealFits(c, before, base, group, entry, stages);
    var (ref, st1) := Lower(c, st, group).value;
    var doc :| Holds(st1.components, ref, doc) && doc.stages == stages;
    MembersStandMore(st0.components, st1.components, group.members, refs);
    GroupStands(st1.components, group, doc, refs);
  }

  lemma GroupStands(components: seq<Component>, group: Extension, doc: Workflow, refs: seq<Ref>)
    requires group.Group? && MembersStand(components, group.members, refs)
    requires forall i: nat | i < |refs| :: CallsMember(group.kind, |refs|, doc, i, refs[i])
    ensures DocumentStands(components, group, doc)
  {
    hide CallsMember, Stands;
    forall i | 0 <= i < |group.members|
      ensures MemberStands(components, group.kind, |group.members|, doc, i, group.members[i])
    {
      assert CallsMember(group.kind, |refs|, doc, i, refs[i]) && Stands(components, group.members[i], refs[i]);
    }
  }

  /** The stages built around lowered members fit, and call each by its number. */
  lemma GroupStagesFit(c: Compiler, start: State, base: nat, group: Extension)
    requires group.Group? && GroupWrapper(c, start, group).Ok?
    requires var (refs, st) := LowerMembers(c, start, group.members).value;
             Fit(c, st, base) && AllCallable(st.components, refs)
    ensures var (refs, st) := LowerMembers(c, start, group.members).value;
            var (entry, stages, before) := GroupWrapper(c, start, group).value;
            && Fit(c, before, base) && before.components == st.components && StagesFit(before.components, stages)
            && forall i: nat, doc: Workflow | i < |refs| && doc.stages == stages ::
                 CallsMember(group.kind, |refs|, doc, i, refs[i])
  {
    hide StagesFit, StageFits, AllCallable, PortsFit, DocumentsFit, TitlesFit, LowerMembers;
    var (refs, st) := LowerMembers(c, start, group.members).value;
    var offered := Offered(st.ports);
    match group.kind
    case SequenceOf =>
      SequenceStagesFit(st.components, offered, refs, |refs|);
      SequenceStagesAre(st.components, offered, refs, |refs|);
    case ParallelOf =>
      EndingsFit(st.components);
      ParallelFits(st.components, offered, refs);
      RunFits(st.components, ENDINGS, ParallelStage(Branches(st.components, offered, refs)));
      forall i: nat | i < |refs| ensures Branches(st.components, offered, refs)[i].id == "member-" + Decimal(i)
        && Branches(st.components, offered, refs)[i].ref == refs[i] {
        BranchesAre(st.components, offered, refs, i);
      }
    case ChoiceOf =>
      LiftPredicatesFit(c, st, group.predicates);
      var ps := LiftPredicates(c, st, group.predicates).value.0;
      ChoiceStagesFit(st.components, offered, refs, |refs|);
      ChoiceStagesAre(st.components, offered, refs, |refs|);
      ChoiceFits(st.components, group, ps);
      RunFits(st.components, ChoiceStages(st.components, offered, refs, |refs|), ChoiceStage(group, ps));
      forall i: nat ensures Member(i) != "run" { MemberNames(i, i); }
  }

  lemma {:induction false} MembersFit(c: Compiler, st: State, base: nat, members: seq<Extension>)
    requires Injective(c) && Good(c, st) && Fit(c, st, base) && LowerMembers(c, st, members).Ok?
    ensures var (refs, st1) := LowerMembers(c, st, members).value;
            && Fit(c, st1, base) && st.components <= st1.components && AllCallable(st1.components, refs)
            && MembersStand(st1.components, members, refs)
    decreases members, 0
  {
    hide Injective, Good, Fit, HasComponent, Stands, MembersStand, AllCallable, Lower;
    if members == [] {
      NoMembersStand(st.components);
    } else {
      var front, last := members[..|members| - 1], members[|members| - 1];
      MembersFit(c, st, base, front);
      LowerMembersKeep(c, st, front);
      var (refs, st1) := LowerMembers(c, st, front).value;
      LowerFits(c, st1, base, last);
      var (ref, st2) := Lower(c, st1, last).value;
      MembersStandMore(st1.components, st2.components, front, refs);
      OneMoreStands(st2.components, front, refs, last, ref);
      assert members == front + [last];
    }
  }

  lemma NoMembersStand(components: seq<Component>)
    ensures MembersStand(components, [], []) && AllCallable(components, [])
  {
  }

  lemma OneMoreStands(components: seq<Component>, front: seq<Extension>, refs: seq<Ref>, last: Extension, ref: Ref)
    requires MembersStand(components, front, refs) && AllCallable(components, refs)
    requires Stands(components, last, ref) && HasComponent(components, ref, "workflow")
    ensures MembersStand(components, front + [last], refs + [ref]) && AllCallable(components, refs + [ref])
  {
    hide Stands, HasComponent;
  }

  /**
   What the compiler writes for a group: every document listed on the way
   fits, field by field, the one returned stands for the group, and the outer
   call's ports are those of the sources read, named and typed as they are.
   */
  lemma GeneratedDocumentsFit(c: Compiler, listed: seq<Component>, ext: Extension)
    requires Injective(c) && Sealed(c, listed) && TitlesFit(listed) && Lower(c, Fresh(listed), ext).Ok?
    ensures var (ref, final) := Lower(c, Fresh(listed), ext).value;
            && listed <= final.components && DocumentsFit(c, final.components, |listed|) && TitlesFit(final.components)
            && Stands(final.components, ext, ref) && PortsFit(c, final)
  {
    hide Lower, Stands;
    LowerFits(c, Fresh(listed), |listed|, ext);
  }
}
