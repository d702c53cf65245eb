/**
 The part of the workflow runtime that composed contributions are lowered to:
 bindings, choice predicates, stages, sealed workflow documents, and what it
 means to run a workflow's stage graph.
 */
module Flow {
  import opened Prelude

  // ----- Documents ------------------------------------------------------------

  /** An exact reference: identity, version and content digest. */
  datatype Ref = Ref(id: string, version: string, digest: string)

  datatype Port = Port(format: string, schema: Option<string>)

  datatype InputPort = InputPort(port: Port, required: bool)

  datatype Source =
    | WorkflowInput(port: string)
    | StageOutput(stage: string, port: string)
    | OtherSource(from: string, port: string)

  datatype Projection = Projection(pointer: string, schema: Option<string>)

  datatype Binding =
    | Literal(value: Json)
    | Bound(source: Source, projection: Option<Projection>)

  datatype FieldRef = FieldRef(source: Source, pointer: string)

  datatype Operand = LiteralOperand(value: Json) | FieldOperand(ref: FieldRef)

  datatype Predicate =
    | Compare(equal: bool, left: Operand, right: Operand)
    | Exists(ref: FieldRef)
    | Not(arg: Predicate)
    | All(args: seq<Predicate>)
    | Any(args: seq<Predicate>)

  datatype ChoiceBranch = ChoiceBranch(id: string, guard: Predicate, next: string)

  datatype ParallelBranch = ParallelBranch(id: string, ref: Ref, inputs: map<string, Binding>)

  datatype Join = Join(mode: string, accept: seq<string>, remainder: string)

  datatype Stage =
    | Finish(outcome: string)
    | Invoke(kind: string, ref: Ref, inputs: map<string, Binding>, on: map<string, string>, impossible: seq<string>)
    | Parallel(branches: seq<ParallelBranch>, join: Join, maxParallelism: nat, on: map<string, string>)
    | Choice(selection: string, alternatives: seq<ChoiceBranch>, default: string, onUnknown: string)

  /** `rest` stands for every part of a document this model does not read. */
  datatype Workflow = Workflow(
    schemaVersion: string, id: string, version: string, title: string,
    inputs: map<string, InputPort>, outputs: map<string, Port>, outcomes: seq<string>,
    limits: string, policy: string, entry: string, stages: map<string, Stage>, rest: string)

  datatype Component = Component(kind: string, ref: Ref, name: string, names: seq<string>, doc: Workflow)

  // ----- Reading data ---------------------------------------------------------

  /** The values a stage graph can read: its inputs and its settled stage outputs. */
  datatype Scope = Scope(inputs: map<string, Json>, outputs: map<(string, string), Json>)

  function Inside(env: map<string, Json>): Scope {
    Scope(env, map[])
  }

  function Read(scope: Scope, source: Source): Option<Json> {
    match source
    case WorkflowInput(port) => if port in scope.inputs then Some(scope.inputs[port]) else None
    case StageOutput(stage, port) =>
      if (stage, port) in scope.outputs then Some(scope.outputs[(stage, port)]) else None
    case OtherSource(_, _) => None
  }

  /** What the surrounding runtime decides: pointer projection and the order branches settle in. */
  datatype Runtime = Runtime(project: (Json, string) -> Option<Json>, settle: (seq<string>, nat) -> seq<nat>)

  function Fetch(rt: Runtime, scope: Scope, binding: Binding): Option<Json> {
    match binding
    case Literal(value) => Some(value)
    case Bound(source, projection) =>
      match Read(scope, source) {
        case None => None
        case Some(value) => if projection.None? then Some(value) else (rt.project)(value, projection.value.pointer)
      }
  }

  function FetchAll(rt: Runtime, scope: Scope, inputs: map<string, Binding>): Option<map<string, Json>> {
    if forall p | p in inputs :: Fetch(rt, scope, inputs[p]).Some?
    then Some(map p | p in inputs :: Fetch(rt, scope, inputs[p]).value)
    else None
  }

  function Resolve(rt: Runtime, scope: Scope, ref: FieldRef): Option<Json> {
    match Read(scope, ref.source)
    case None => None
    case Some(value) => (rt.project)(value, ref.pointer)
  }

  // ----- Predicates and choice -------------------------------------------------

  datatype Truth = True | False | Unknown | Mismatch

  function TruthOf(b: bool): Truth {
    if b then True else False
  }

  predicate Scalar(value: Json) {
    !value.JArray? && !value.JObject?
  }

  predicate SameKind(a: Json, b: Json) {
    (a.JNull? && b.JNull?) || (a.JBool? && b.JBool?) || (a.JInt? && b.JInt?) || (a.JString? && b.JString?)
  }

  function OperandValue(rt: Runtime, scope: Scope, operand: Operand): Option<Json> {
    match operand
    case LiteralOperand(value) => Some(value)
    case FieldOperand(ref) => Resolve(rt, scope, ref)
  }

  function EvalCompare(equal: bool, left: Option<Json>, right: Option<Json>): Truth {
    if (left.Some? && !Scalar(left.value)) || (right.Some? && !Scalar(right.value)) then Mismatch
    else if left.None? || right.None? then Unknown
    else if !SameKind(left.value, right.value) then Mismatch
    else TruthOf((left.value == right.value) == equal)
  }

  /** Three-valued evaluation; `Mismatch` is the technical error of an ill-typed comparison. */
  function Eval(rt: Runtime, scope: Scope, p: Predicate): Truth
    decreases p, 1
  {
    match p
    case Compare(equal, left, right) =>
      EvalCompare(equal, OperandValue(rt, scope, left), OperandValue(rt, scope, right))
    case Exists(ref) => TruthOf(Resolve(rt, scope, ref).Some?)
    case Not(arg) =>
      var t := Eval(rt, scope, arg);
      if t == Mismatch || t == Unknown then t else TruthOf(t == False)
    case All(args) => Fold(EvalEach(rt, scope, args), False)
    case Any(args) => Fold(EvalEach(rt, scope, args), True)
  }

  function EvalEach(rt: Runtime, scope: Scope, ps: seq<Predicate>): (ts: seq<Truth>)
    ensures |ts| == |ps|
    decreases ps, 0
  {
    if ps == [] then []
    else EvalEach(rt, scope, ps[..|ps| - 1]) + [Eval(rt, scope, ps[|ps| - 1])]
  }

  /** Conjunction (`deciding == False`) or disjunction (`deciding == True`) of the arguments. */
  function Fold(ts: seq<Truth>, deciding: Truth): Truth {
    if Mismatch in ts || ts == [] then Mismatch
    else if deciding in ts then deciding
    else if Unknown in ts then Unknown
    else if deciding == False then True else False
  }

  datatype Selected = Branch(index: nat) | Default | OnUnknown | ChoiceFailed

  /** How many leading truths a choice looks at: all of them, or up to the first that is not false. */
  function Looked(selection: string, ts: seq<Truth>): (n: nat)
    ensures n <= |ts|
  {
    if ts == [] then 0
    else if selection == "first_match" && ts[0] != False then 1
    else 1 + Looked(selection, ts[1..])
  }

  function Matches(ts: seq<Truth>): seq<nat> {
    if ts == [] then []
    else Matches(ts[..|ts| - 1]) + (if ts[|ts| - 1] == True then [|ts| - 1] else [])
  }

  function Select(selection: string, ts: seq<Truth>): Selected {
    var seen := ts[..Looked(selection, ts)];
    if Mismatch in seen then ChoiceFailed
    else if |Matches(seen)| > 1 then ChoiceFailed
    else if Unknown in seen then OnUnknown
    else if |Matches(seen)| == 1 then Branch(Matches(seen)[0])
    else Default
  }

  // ----- Running a stage graph ----------------------------------------------------

  datatype Outcome = Completed(name: string) | Failed

  /** One started invocation, or the concurrent histories of a fan-out. */
  datatype Event =
    | Started(ref: Ref, inputs: map<string, Json>, path: seq<string>)
    | Together(histories: seq<History>)

  datatype History = History(events: seq<Event>)

  datatype Run = Run(outcome: Outcome, events: seq<Event>)

  /** What running a reference with given inputs, at a given call path, amounts to. */
  type Invocation = (Ref, map<string, Json>, seq<string>) -> Run

  /** The verdict of a join that accepts only if every branch is accepted. */
  function JoinVerdict(accepted: nat, observed: nat, total: nat): string {
    if accepted < observed then "unsatisfied"
    else if observed == total then "satisfied"
    else "undecided"
  }

  /** Fold the branches in settlement order: a failed branch fails the join at once. */
  function JoinFold(join: Join, runs: seq<Run>, order: seq<nat>, accepted: nat, observed: nat): Option<string>
    requires observed <= |order|
    requires forall k | 0 <= k < |order| :: order[k] < |runs|
    decreases |order| - observed
  {
    if observed == |order| then Some(JoinVerdict(accepted, observed, |runs|))
    else match runs[order[observed]].outcome
      case Failed => None
      case Completed(name) =>
        JoinFold(join, runs, order, if name in join.accept then accepted + 1 else accepted, observed + 1)
  }

  predicate IsOrder(order: seq<nat>, n: nat) {
    && |order| == n
    && (forall k | 0 <= k < n :: order[k] < n)
    && Distinct(order)
  }

  function Histories(runs: seq<Run>): seq<History> {
    seq(|runs|, i requires 0 <= i < |runs| => History(runs[i].events))
  }

  /** Run one branch of a fan-out; a branch whose inputs cannot be bound fails. */
  function RunBranch(rt: Runtime, scope: Scope, path: seq<string>, branch: ParallelBranch, invoke: Invocation): Run {
    match FetchAll(rt, scope, branch.inputs)
    case None => Run(Failed, [])
    case Some(args) => invoke(branch.ref, args, path + [branch.id])
  }

  function RunBranches(rt: Runtime, scope: Scope, path: seq<string>, branches: seq<ParallelBranch>,
                       invoke: Invocation): (rs: seq<Run>)
    ensures |rs| == |branches|
  {
    if branches == [] then []
    else RunBranches(rt, scope, path, branches[..|branches| - 1], invoke)
         + [RunBranch(rt, scope, path, branches[|branches| - 1], invoke)]
  }

  function Predicates(alternatives: seq<ChoiceBranch>): (ps: seq<Predicate>)
    ensures |ps| == |alternatives|
  {
    seq(|alternatives|, i requires 0 <= i < |alternatives| => alternatives[i].guard)
  }

  function NextChoice(rt: Runtime, scope: Scope, stage: Stage): Option<string>
    requires stage.Choice?
  {
    match Select(stage.selection, EvalEach(rt, scope, Predicates(stage.alternatives)))
    case Branch(i) => if i < |stage.alternatives| then Some(stage.alternatives[i].next) else None
    case Default => Some(stage.default)
    case OnUnknown => Some(stage.onUnknown)
    case ChoiceFailed => None
  }

  function After(events: seq<Event>, rest: Run): Run {
    Run(rest.outcome, events + rest.events)
  }

  /** Step the stage graph of `doc` from stage `id`; `fuel` bounds the number of stages entered. */
  function RunStage(rt: Runtime, doc: Workflow, id: string, scope: Scope, path: seq<string>, invoke: Invocation,
                    fuel: nat): Run
    decreases fuel
  {
    if fuel == 0 || id !in doc.stages then Run(Failed, [])
    else match doc.stages[id]
      case Finish(outcome) => Run(Completed(outcome), [])
      case Invoke(_, ref, inputs, on, _) =>
        (match FetchAll(rt, scope, inputs)
         case None => Run(Failed, [])
         case Some(args) =>
           var r := invoke(ref, args, path + [id]);
           if r.outcome.Completed? && r.outcome.name in on
           then After(r.events, RunStage(rt, doc, on[r.outcome.name], scope, path, invoke, fuel - 1))
           else Run(Failed, r.events))
      case Parallel(branches, join, _, on) =>
        var runs := RunBranches(rt, scope, path + [id], branches, invoke);
        var order := (rt.settle)(path + [id], |branches|);
        var events := [Together(Histories(runs))];
        if !IsOrder(order, |runs|) then Run(Failed, events)
        else (match JoinFold(join, runs, order, 0, 0)
              case None => Run(Failed, events)
              case Some(verdict) =>
                if verdict in on
                then After(events, RunStage(rt, doc, on[verdict], scope, path, invoke, fuel - 1))
                else Run(Failed, events))
      case Choice(_, _, _, _) =>
        match NextChoice(rt, scope, doc.stages[id])
        case None => Run(Failed, [])
        case Some(next) => RunStage(rt, doc, next, scope, path, invoke, fuel - 1)
  }

  function RunWorkflow(rt: Runtime, doc: Workflow, env: map<string, Json>, path: seq<string>, invoke: Invocation): Run {
    RunStage(rt, doc, doc.entry, Inside(env), path, invoke, |doc.stages| + 1)
  }
}
