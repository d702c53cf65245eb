/** Contributions to one edge of a workflow, alone or composed into groups. */
module Extensions {
  import opened Prelude
  import opened Flow

  datatype Head = Head(
    id: string, workflow: string, selector: string, source: string,
    from: string, to: string, on: map<string, string>, onError: string)

  datatype Kind = SequenceOf | ParallelOf | ChoiceOf

  datatype Extension =
    | Leaf(head: Head, step: string, call: string, bindings: seq<(string, Binding)>, impossible: seq<string>)
    | Group(head: Head, kind: Kind, members: seq<Extension>, selection: string, predicates: seq<Predicate>,
            default: nat)

  /** What reading a group guarantees: members exist, and a choice has one member per predicate plus a default. */
  predicate WellFormed(ext: Extension) {
    ext.Group? ==>
      && ext.members != []
      && (ext.kind == ChoiceOf ==>
            ext.predicates != [] && ext.default == |ext.predicates| && |ext.members| == ext.default + 1)
      && forall m | m in ext.members :: WellFormed(m)
  }
}

/**
 Lowering a composed contribution to nested wrapper workflows. A wrapper reads
 nothing but its own inputs: every binding and predicate field of the group is
 lifted to an input that the outer call binds in the root's scope.
 */
module Lowering {
  import opened Prelude
  import opened Flow
  import opened Extensions

  const WRAPPER_TITLE := "Composed contribution"

  datatype RootStage = RootStage(kind: string, ref: Ref)

  datatype Root = Root(
    id: string, schemaVersion: string, version: string, limits: string, policy: string,
    inputs: map<string, Port>, stages: map<string, RootStage>)

  /** The root workflow and the hash functions one compilation uses. */
  datatype Compiler = Compiler(
    root: Root, fingerprint: Binding -> string, identity: Extension -> string, digest: Workflow -> string)

  datatype State = State(external: map<string, Binding>, ports: map<string, InputPort>, components: seq<Component>)

  // ----- Lifting ------------------------------------------------------------------

  function SourceKey(source: Source): string {
    match source
    case WorkflowInput(port) => port
    case StageOutput(stage, port) => "stage_" + stage + "_" + port
    case OtherSource(_, port) => port
  }

  function LiftKey(c: Compiler, b: Binding): string
    requires b.Bound?
  {
    SourceKey(b.source) + if b.projection.Some? then (c.fingerprint)(b) else ""
  }

  /** The output port the last component behind `stage` declares under this name. */
  function FindOutput(components: seq<Component>, stage: RootStage, port: string): Option<Port> {
    if components == [] then None
    else
      var last := components[|components| - 1];
      if (stage.kind == "step" || stage.kind == "call") && last.ref == stage.ref && port in last.doc.outputs
      then Some(last.doc.outputs[port])
      else FindOutput(components[..|components| - 1], stage, port)
  }

  function SourcePort(c: Compiler, components: seq<Component>, source: Source): Result<Port> {
    match source
    case WorkflowInput(port) =>
      if port in c.root.inputs then Ok(c.root.inputs[port]) else Refused("project_composition_binding_scope")
    case StageOutput(stage, port) =>
      if stage !in c.root.stages then Refused("project_composition_binding_scope")
      else (match FindOutput(components, c.root.stages[stage], port)
            case None => Refused("project_composition_binding_scope")
            case Some(p) => Ok(p))
    case OtherSource(_, _) => Refused("project_composition_binding_scope")
  }

  function Lift(c: Compiler, st: State, b: Binding): Result<(Binding, State)> {
    if b.Literal? then Ok((b, st))
    else
      var port :- SourcePort(c, st.components, b.source);
      if b.projection.Some? && b.projection.value.schema.None? then Refused("project_composition_binding_scope")
      else
        var typed := if b.projection.Some? then port.(schema := b.projection.value.schema) else port;
        var key := LiftKey(c, b);
        if key in st.external && st.external[key] != b then Refused("project_composition_binding_scope")
        else Ok((Bound(WorkflowInput(key), None),
                 State(st.external[key := b], st.ports[key := InputPort(typed, true)], st.components)))
  }

  /** Lift a list of port bindings in the order given; a later binding of a port replaces an earlier one. */
  function LiftBindings(c: Compiler, st: State, bs: seq<(string, Binding)>): Result<(map<string, Binding>, State)> {
    if bs == [] then Ok((map[], st))
    else
      var (inputs, st1) :- LiftBindings(c, st, bs[..|bs| - 1]);
      var (lifted, st2) :- Lift(c, st1, bs[|bs| - 1].1);
      Ok((inputs[bs[|bs| - 1].0 := lifted], st2))
  }

  /** A predicate reads a field of the lifted whole value, so its pointer stays where it is. */
  function LiftField(c: Compiler, st: State, ref: FieldRef): Result<(FieldRef, State)> {
    if ref.source.OtherSource? then Ok((ref, st))
    else
      var (lifted, st1) :- Lift(c, st, Bound(ref.source, None));
      if lifted.Bound? then Ok((FieldRef(lifted.source, ref.pointer), st1)) else Ok((ref, st1))
  }

  function LiftOperand(c: Compiler, st: State, operand: Operand): Result<(Operand, State)> {
    match operand
    case LiteralOperand(_) => Ok((operand, st))
    case FieldOperand(ref) =>
      var (lifted, st1) :- LiftField(c, st, ref);
      Ok((FieldOperand(lifted), st1))
  }

  function LiftPredicate(c: Compiler, st: State, p: Predicate): Result<(Predicate, State)>
    decreases p, 1
  {
    match p
    case Compare(equal, left, right) =>
      var (l, st1) :- LiftOperand(c, st, left);
      var (r, st2) :- LiftOperand(c, st1, right);
      Ok((Compare(equal, l, r), st2))
    case Exists(ref) =>
      var (lifted, st1) :- LiftField(c, st, ref);
      Ok((Exists(lifted), st1))
    case Not(arg) =>
      var (lifted, st1) :- LiftPredicate(c, st, arg);
      Ok((Not(lifted), st1))
    case All(args) =>
      var (lifted, st1) :- LiftPredicates(c, st, args);
      Ok((All(lifted), st1))
    case Any(args) =>
      var (lifted, st1) :- LiftPredicates(c, st, args);
      Ok((Any(lifted), st1))
  }

  function LiftPredicates(c: Compiler, st: State, ps: seq<Predicate>): Result<(seq<Predicate>, State)>
    decreases ps, 0
  {
    if ps == [] then Ok(([], st))
    else
      var (front, st1) :- LiftPredicates(c, st, ps[..|ps| - 1]);
      var (last, st2) :- LiftPredicate(c, st1, ps[|ps| - 1]);
      Ok((front + [last], st2))
  }

  // ----- Leaf contributions --------------------------------------------------------

  /** What follows the last slash of an identity. */
  function ShortName(id: string): string {
    if id == [] || id[|id| - 1] == '/' then ""
    else ShortName(id[..|id| - 1]) + [id[|id| - 1]]
  }

  predicate Named(component: Component, name: string) {
    if component.name == "" then ShortName(component.ref.id) == name
    else component.name == name || name in component.names
  }

  predicate TargetOf(component: Component, leaf: Extension)
    requires leaf.Leaf?
  {
    && component.kind == (if leaf.call != "" then "workflow" else "step")
    && Named(component, if leaf.call != "" then leaf.call else leaf.step)
  }

  function Targets(components: seq<Component>, leaf: Extension): seq<Component>
    requires leaf.Leaf?
  {
    if components == [] then []
    else Targets(components[..|components| - 1], leaf)
         + if TargetOf(components[|components| - 1], leaf) then [components[|components| - 1]] else []
  }

  /** Where a leaf's result leads inside its wrapper: on success to `done`, otherwise to `rejected`. */
  function LeafRoutes(leaf: Extension, target: Component): Result<map<string, string>>
    requires leaf.Leaf?
  {
    if leaf.call != "" then
      if exists o | o in target.doc.outcomes :: o !in leaf.head.on
        then Refused("project_extension_call_outcome_unmapped")
      else Ok(map o | o in target.doc.outcomes ::
                if o == "succeeded" && leaf.head.on[o] == leaf.head.to then "done" else "rejected")
    else
      Ok(map v | v in leaf.head.on ::
           if v == "pass" && leaf.head.on[v] == leaf.head.to then "done" else "rejected")
  }

  function FindTarget(components: seq<Component>, leaf: Extension): Result<(Component, map<string, string>)>
    requires leaf.Leaf?
  {
    var found := Targets(components, leaf);
    if found == [] then Refused("project_composition_unknown_component")
    else
      var on :- LeafRoutes(leaf, found[0]);
      if |found| > 1 then Refused("project_composition_ambiguous_component")
      else Ok((found[0], on))
  }

  function LeafStage(leaf: Extension, target: Component, inputs: map<string, Binding>, on: map<string, string>): Stage
    requires leaf.Leaf?
  {
    Invoke(if leaf.call != "" then "call" else "step", target.ref, inputs, on, leaf.impossible)
  }

  // ----- Wrapper documents -----------------------------------------------------------

  const ENDINGS: map<string, Stage> := map["done" := Finish("succeeded"), "rejected" := Finish("rejected")]

  const MEMBER_PREFIX := "member-"

  function Member(i: nat): string {
    MEMBER_PREFIX + Decimal(i)
  }

  function Offered(ports: map<string, InputPort>): map<string, Binding> {
    map key | key in ports :: Bound(WorkflowInput(key), None)
  }

  /** The offered bindings a child asks for by its declared inputs. */
  function ChildBindings(components: seq<Component>, ref: Ref, offered: map<string, Binding>): map<string, Binding> {
    map port |
      && port in offered
      && exists j :: 0 <= j < |components| && components[j].ref == ref && port in components[j].doc.inputs
      :: offered[port]
  }

  function MemberCall(components: seq<Component>, offered: map<string, Binding>, ref: Ref, next: string): Stage {
    Invoke("call", ref, ChildBindings(components, ref, offered), map["succeeded" := next, "rejected" := "rejected"], [])
  }

  function SequenceNext(i: nat, n: nat): string {
    if i + 1 < n then Member(i + 1) else "done"
  }

  /** The wrapper stages of a sequence after `k` of its members were added. */
  function SequenceStages(components: seq<Component>, offered: map<string, Binding>, refs: seq<Ref>,
                          k: nat): map<string, Stage>
    requires k <= |refs|
  {
    if k == 0 then ENDINGS
    else SequenceStages(components, offered, refs, k - 1)
           [Member(k - 1) := MemberCall(components, offered, refs[k - 1], SequenceNext(k - 1, |refs|))]
  }

  function ChoiceStages(components: seq<Component>, offered: map<string, Binding>, refs: seq<Ref>,
                        k: nat): map<string, Stage>
    requires k <= |refs|
  {
    if k == 0 then ENDINGS
    else
      ChoiceStages(components, offered, refs, k - 1)
        [Member(k - 1) := MemberCall(components, offered, refs[k - 1], "done")]
  }

  function Branches(components: seq<Component>, offered: map<string, Binding>,
                    refs: seq<Ref>): (bs: seq<ParallelBranch>)
    ensures |bs| == |refs|
  {
    if refs == [] then []
    else Branches(components, offered, refs[..|refs| - 1])
         + [ParallelBranch(Member(|refs| - 1), refs[|refs| - 1], ChildBindings(components, refs[|refs| - 1], offered))]
  }

  function Alternatives(ps: seq<Predicate>): (alternatives: seq<ChoiceBranch>)
    ensures |alternatives| == |ps|
  {
    if ps == [] then []
    else Alternatives(ps[..|ps| - 1])
         + [ChoiceBranch("alternative-" + Decimal(|ps| - 1), ps[|ps| - 1], Member(|ps| - 1))]
  }

  function ParallelStage(branches: seq<ParallelBranch>): Stage {
    Parallel(branches, Join("all", ["succeeded"], "wait"), |branches|,
             map["satisfied" := "done", "unsatisfied" := "rejected"])
  }

  function ChoiceStage(group: Extension, ps: seq<Predicate>): Stage
    requires group.Group?
  {
    Choice(group.selection, Alternatives(ps), Member(group.default), "rejected")
  }

  // ----- Sealing a wrapper --------------------------------------------------------------

  function Namespace(id: string): string {
    if id == [] || id[0] == ':' then "" else [id[0]] + Namespace(id[1..])
  }

  function Wrapper(c: Compiler, st: State, id: string, entry: string, stages: map<string, Stage>): Workflow {
    Workflow(c.root.schemaVersion, id, c.root.version, WRAPPER_TITLE, st.ports, map[], ["succeeded", "rejected"],
             c.root.limits, c.root.policy, entry, stages, "")
  }

  function WrapperId(c: Compiler, ext: Extension): Result<string> {
    var prefix := Namespace(c.root.id) + ":workflow/";
    if |prefix| > 96 then Refused("project_composition_limit")
    else
      var name := (c.identity)(ext);
      Ok(prefix + if 128 - |prefix| < |name| then name[..128 - |prefix|] else name)
  }

  /** Content-address the wrapper, and append it unless the same reference is already listed. */
  function Seal(c: Compiler, st: State, ext: Extension, entry: string,
                stages: map<string, Stage>): Result<(Ref, State)> {
    var id :- WrapperId(c, ext);
    var doc := Wrapper(c, st, id, entry, stages);
    var ref := Ref(id, doc.version, (c.digest)(doc));
    if exists j :: 0 <= j < |st.components| && st.components[j].ref == ref then Ok((ref, st))
    else Ok((ref, st.(components := st.components + [Component("workflow", ref, "", [], doc)])))
  }

  // ----- Lowering --------------------------------------------------------------------------

  function Lower(c: Compiler, st: State, ext: Extension): Result<(Ref, State)>
    decreases ext, 1
  {
    match ext
    case Leaf(_, _, _, bindings, _) =>
      var (inputs, st1) :- LiftBindings(c, st, bindings);
      var (target, on) :- FindTarget(st1.components, ext);
      Seal(c, st1, ext, "run", ENDINGS["run" := LeafStage(ext, target, inputs, on)])
    case Group(_, _, _, _, _, _) =>
      var (entry, stages, st1) :- GroupWrapper(c, st, ext);
      Seal(c, st1, ext, entry, stages)
  }

  /** Lower the members of a group, then build the stages of its wrapper around them. */
  function GroupWrapper(c: Compiler, st: State, group: Extension): Result<(string, map<string, Stage>, State)>
    requires group.Group?
    decreases group, 0
  {
    var (refs, st1) :- LowerMembers(c, st, group.members);
    var offered := Offered(st1.ports);
    match group.kind
    case SequenceOf =>
      Ok((Member(0), SequenceStages(st1.components, offered, refs, |refs|), st1))
    case ParallelOf =>
      Ok(("run", ENDINGS["run" := ParallelStage(Branches(st1.components, offered, refs))], st1))
    case ChoiceOf =>
      var (ps, st2) :- LiftPredicates(c, st1, group.predicates);
      Ok(("run", ChoiceStages(st2.components, offered, refs, |refs|)["run" := ChoiceStage(group, ps)], st2))
  }

  function LowerMembers(c: Compiler, st: State, members: seq<Extension>): (r: Result<(seq<Ref>, State)>)
    ensures r.Ok? ==> |r.value.0| == |members|
    decreases members, 0
  {
    if members == [] then Ok(([], st))
    else
      var (refs, st1) :- LowerMembers(c, st, members[..|members| - 1]);
      var (ref, st2) :- Lower(c, st1, members[|members| - 1]);
      Ok((refs + [ref], st2))
  }
}
