/**
 The contributions of one root applied in turn: single ones spliced in, groups
 lowered against the growing component list and spliced in as one call each.
 */
module ComposedInsertion {
  import opened Prelude
  import opened Flow
  import opened Extensions
  import opened Lowering
  import opened Meaning
  import opened LoweringProof
  import opened LoweringTheorems
  import opened LoweringFacts
  import opened LoweringSuccess
  import opened GeneratedDocuments
  import opened LowererObject
  import S = Splice

  // ----- A group on its edge ----------------------------------------------------------------------

  /** The call that stands for a lowered group: bound to the lifted sources, routed as the group declares. */
  function GroupCall(group: Extension, ref: Ref, final: State): S.Insertion {
    S.Insertion(group.head.id, "", "", ShortName(ref.id), true, group.head.from, group.head.to, group.head.on,
                group.head.onError, final.external, None, [], [])
  }

  /** Where entering a call stage leads, and what it starts on the way. */
  function EnterCall(rt: Runtime, scope: Scope, stage: S.GraphStage, path: seq<string>,
                     invoke: Invocation): (Option<string>, seq<Event>) {
    var args := FetchAll(rt, scope, stage.inputs);
    if args.None? then (RouteFor(stage, S.OnError), [])
    else
      var r := invoke(stage.ref, args.value, path);
      (RouteFor(stage, if r.outcome.Failed? then S.OnError else S.OnVerdict(r.outcome.name)), r.events)
  }

  function RouteFor(stage: S.GraphStage, route: S.Route): Option<string> {
    if route in stage.routes then Some(stage.routes[route]) else None
  }

  /** The route a group declares for each of its three results. */
  function Declared(group: Extension, outcome: Outcome): Option<string> {
    match outcome
    case Failed => Some(group.head.onError)
    case Completed(name) => if name in group.head.on then Some(group.head.on[name]) else None
  }

  /** The stage spliced in for a group. */
  function CallOf(group: Extension, ref: Ref, final: State): S.GraphStage {
    S.GraphStage("call", ref, final.external, S.VerdictRoutes(group.head.on) + map[S.OnError := group.head.onError], [])
  }

  lemma InsertedCall(group: Extension, ref: Ref, final: State)
    requires group.head.onError != "" && ShortName(ref.id) != ""
    ensures S.InsertedStage(GroupCall(group, ref, final), ref) == CallOf(group, ref, final)
    ensures S.StageIdOf(GroupCall(group, ref, final)) == group.head.id
  {
    assert S.SourceBindings([]) == map[];
    assert S.BindingsOf(GroupCall(group, ref, final)) == final.external;
  }

  /**
   How the call leaves if invoking it gives `meaning` whenever its sources are
   there: without them, by the error route at once.
   */
  function Leaving(rt: Runtime, scope: Scope, group: Extension, final: State,
                   meaning: Run): (Option<string>, seq<Event>) {
    if FetchAll(rt, scope, final.external).None? then (Some(group.head.onError), [])
    else (Declared(group, meaning.outcome), meaning.events)
  }

  lemma EnteringCall(rt: Runtime, scope: Scope, group: Extension, ref: Ref, final: State,
                     path: seq<string>, invoke: Invocation, meaning: Run)
    requires FetchAll(rt, scope, final.external).Some? ==>
               invoke(ref, FetchAll(rt, scope, final.external).value, path) == meaning
    ensures EnterCall(rt, scope, CallOf(group, ref, final), path, invoke) == Leaving(rt, scope, group, final, meaning)
  {
    CallRoutes(CallOf(group, ref, final), group, meaning.outcome);
  }

  lemma CallRoutes(stage: S.GraphStage, group: Extension, outcome: Outcome)
    requires stage.routes == S.VerdictRoutes(group.head.on) + map[S.OnError := group.head.onError]
    ensures RouteFor(stage, if outcome.Failed? then S.OnError else S.OnVerdict(outcome.name))
              == Declared(group, outcome)
  {
    if outcome.Completed? { S.VerdictRoutesAre(group.head.on, S.OnVerdict(outcome.name)); }
  }

  /** The edge's one route is redirected into the call. */
  lemma EdgeEntersCall(group: Extension, ref: Ref, final: State, stages: map<string, S.GraphStage>)
    requires S.Plan(stages, GroupCall(group, ref, final)).Ok? && ShortName(ref.id) != "" && group.head.onError != ""
    ensures var ins := GroupCall(group, ref, final);
            var route := S.Plan(stages, ins).value;
            var after := S.Spliced(stages, ins, ref, route);
            && group.head.from in stages && route in stages[group.head.from].routes
            && stages[group.head.from].routes[route] == group.head.to
            && group.head.from in after && route in after[group.head.from].routes
              && after[group.head.from].routes[route] == group.head.id
            && group.head.id in after && after[group.head.id] == CallOf(group, ref, final)
  {
    InsertedCall(group, ref, final);
    S.InsertionIsReversible(stages, GroupCall(group, ref, final), ref);
  }

  // ----- All contributions of a root -----------------------------------------------------------------

  /** A single contribution with the component it was found to name, or a group. */
  datatype Contribution = Single(ins: S.Insertion, ref: Ref) | Composed(group: Extension)

  /** The root's graph as it stands, and everything listed so far. */
  datatype Project = Project(version: string, stages: map<string, S.GraphStage>, components: seq<Component>)

  /** The compiler of a group reads the root as the contributions before it have left it. */
  function CompilerAt(c: Compiler, version: string, stages: map<string, S.GraphStage>): Compiler {
    c.(root := c.root.(schemaVersion := version,
                       stages := map id | id in stages :: RootStage(stages[id].kind, stages[id].ref)))
  }

  function Insert(p: Project, ins: S.Insertion, ref: Ref): Result<Project> {
    var route :- S.Plan(p.stages, ins);
    var version := if ins.call == "" && ins.impossible != [] then S.Raised(p.version) else p.version;
    if ins.call == "" && exists v | v in ins.impossible :: v !in S.VerdictsRequiredBy(version)
      then Refused(S.INVALID_EXTENSION)
    else Ok(Project(version, S.Spliced(p.stages, ins, ref, route), p.components))
  }

  function ApplyOne(c: Compiler, p: Project, x: Contribution): Result<Project> {
    match x
    case Single(ins, ref) => Insert(p, ins, ref)
    case Composed(group) =>
      var (ref, final) :- Lower(CompilerAt(c, p.version, p.stages), Fresh(p.components), group);
      Insert(p.(components := final.components), GroupCall(group, ref, final), ref)
  }

  function ApplyAll(c: Compiler, p: Project, xs: seq<Contribution>): Result<Project> {
    if xs == [] then Ok(p)
    else
      var before :- ApplyAll(c, p, xs[..|xs| - 1]);
      ApplyOne(c, before, xs[|xs| - 1])
  }

  lemma {:induction false} AllRefused(c: Compiler, p: Project, xs: seq<Contribution>, i: nat)
    requires i <= |xs| && ApplyAll(c, p, xs[..i]).Refused?
    ensures ApplyAll(c, p, xs) == Refused(ApplyAll(c, p, xs[..i]).code)
  {
    if i < |xs| {
      assert xs[..|xs| - 1][..i] == xs[..i];
      AllRefused(c, p, xs[..|xs| - 1], i);
    } else {
      assert xs[..i] == xs;
    }
  }

  /** Splice one stage into the workflow in place. */
  method InsertInto(wf: S.ProjectWorkflow, ins: S.Insertion, ref: Ref, components: seq<Component>)
    returns (r: Result<()>)
    modifies wf
    ensures match Insert(Project(old(wf.schemaVersion), old(wf.stages), components), ins, ref)
            case Ok(p) => r.Ok? && Project(wf.schemaVersion, wf.stages, components) == p
            case Refused(code) => r == Refused(code)
  {
    hide S.Plan, S.Spliced, S.VerdictsRequiredBy, S.Raised;
    r := wf.Apply(ins, ref);
  }

  /** Apply the contributions in turn: the workflow is changed in place, the components listed so far are passed on. */
  method ApplyContributions(c: Compiler, wf: S.ProjectWorkflow, listed: seq<Component>, xs: seq<Contribution>)
    returns (r: Result<seq<Component>>)
    modifies wf
    ensures match ApplyAll(c, Project(old(wf.schemaVersion), old(wf.stages), listed), xs)
            case Ok(p) => r == Ok(p.components) && Project(wf.schemaVersion, wf.stages, p.components) == p
            case Refused(code) => r == Refused(code)
  {
    hide Insert, Lower;
    var components := listed;
    ghost var start := Project(wf.schemaVersion, wf.stages, listed);
    for i := 0 to |xs|
      invariant ApplyAll(c, start, xs[..i]) == Ok(Project(wf.schemaVersion, wf.stages, components))
    {
      assert xs[..i + 1][..i] == xs[..i];
      var x := xs[i];
      var inserted;
      match x {
        case Single(ins, ref) =>
          inserted := InsertInto(wf, ins, ref, components);
        case Composed(group) =>
          var lowerer := new Lowerer(CompilerAt(c, wf.schemaVersion, wf.stages), components);
          var ref := lowerer.LowerOne(group);
          if ref.Refused? {
            AllRefused(c, start, xs, i + 1);
            return Refused(ref.code);
          }
          components := lowerer.components;
          var final := State(lowerer.external, lowerer.ports, components);
          inserted := InsertInto(wf, GroupCall(group, ref.value, final), ref.value, components);
      }
      if inserted.Refused? {
        AllRefused(c, start, xs, i + 1);
        return Refused(inserted.code);
      }
    }
    assert xs[..|xs|] == xs;
    return Ok(components);
  }

  // ----- What one contribution needs and leaves ------------------------------------------------------

  /** A verdict a step may declare impossible at this revision. */
  ghost predicate Declarable(version: string, verdict: string) {
    verdict in {"pass", "fail", "needs_revision", "no_work"} || (verdict == "blocked" && version in {"6", "7", "8"})
  }

  /** The revision after a stage went in: a step with impossible verdicts needs at least the fourth. */
  ghost predicate RevisionAfter(before: string, ins: S.Insertion, after: string) {
    after == if ins.call == "" && ins.impossible != [] && before in {"", "1", "2", "3"} then "4" else before
  }

  /** A single stage goes in exactly if it can be planned and the resulting revision knows its impossible verdicts. */
  lemma InsertsExactlyWhen(p: Project, ins: S.Insertion, ref: Ref)
    ensures Insert(p, ins, ref).Ok? <==>
              && S.Plan(p.stages, ins).Ok?
              && (ins.call == "" ==>
                    forall version, v | RevisionAfter(p.version, ins, version) && v in ins.impossible ::
                      Declarable(version, v))
    ensures Insert(p, ins, ref).Ok? ==>
              && var after := Insert(p, ins, ref).value;
                 && RevisionAfter(p.version, ins, after.version) && after.components == p.components
                 && after.stages == S.Spliced(p.stages, ins, ref, S.Plan(p.stages, ins).value)
  {
    hide S.Plan, S.Spliced, S.Raised, S.VerdictsRequiredBy;
    S.RevisionsAre(p.version, "pass");
    var version := if ins.call == "" && ins.impossible != [] then S.Raised(p.version) else p.version;
    assert RevisionAfter(p.version, ins, version);
    forall v ensures v in S.VerdictsRequiredBy(version) <==> Declarable(version, v) { S.RevisionsAre(version, v); }
  }

  /**
   The binding reads an input of the root, or an output declared by a
   component behind a step or call of the graph as it stands.
   */
  ghost predicate InReach(inputs: map<string, Port>, stages: map<string, S.GraphStage>, components: seq<Component>,
                          b: Binding) {
    && b.Bound? && (b.projection.Some? ==> b.projection.value.schema.Some?)
    && match b.source
       case WorkflowInput(port) => port in inputs
       case StageOutput(id, port) =>
         && id in stages && stages[id].kind in {"step", "call"}
         && exists i ::
              0 <= i < |components| && components[i].ref == stages[id].ref && port in components[i].doc.outputs
       case OtherSource(_, _) => false
  }

  lemma InReachIs(c: Compiler, p: Project, b: Binding)
    ensures InScope(CompilerAt(c, p.version, p.stages), p.components, b)
       <==> InReach(c.root.inputs, p.stages, p.components, b)
  {
    if b.Bound? && b.source.StageOutput? && b.source.stage in p.stages {
      var stage, port := p.stages[b.source.stage], b.source.port;
      if i :| 0 <= i < |p.components| && p.components[i].ref == stage.ref && port in p.components[i].doc.outputs {
        assert stage.kind in {"step", "call"} ==> Declares(p.components, RootStage(stage.kind, stage.ref), port, i);
      }
    }
  }

  /** A group's edge is one route of an existing stage, its own stage is new, and its routes lead to existing ones. */
  ghost predicate EdgeFits(stages: map<string, S.GraphStage>, h: Head) {
    && h.id !in stages && h.from in stages && h.to in stages && (exists r :: S.OnlyRoute(stages[h.from], h.to, r))
    && (forall v | v in h.on :: h.on[v] in stages) && (h.onError == "" || h.onError in stages)
  }

  /**
   A group is applied exactly if, in the graph and with the components as the
   contributions before it have left them, every source it reads is in reach,
   no two different ones share a lifted key, every leaf finds its target, and
   its edge fits; and the root leaves room for identities.
   */
  lemma GroupAppliesExactlyWhen(c: Compiler, p: Project, group: Extension)
    requires Injective(c) && Sealed(c, p.components) && NamesNoWrapper(c, group) && WrappersNamed(c)
    ensures ApplyOne(c, p, Composed(group)).Ok? <==>
              && (forall b | b in Reads(group) :: InReach(c.root.inputs, p.stages, p.components, b))
              && (forall a, b | a in Reads(group) && b in Reads(group) && LiftKey(c, a) == LiftKey(c, b) :: a == b)
              && TargetsFit(p.components, group) && IdFits(c) && EdgeFits(p.stages, group.head)
  {
    hide Injective, InReach, TargetsFit, Lower, LiftKey, WrappersNamed, NamesNoWrapper, Insert, EdgeFits, Reads;
    GroupLowersExactlyWhen(c, p, group);
    if Lower(CompilerAt(c, p.version, p.stages), Fresh(p.components), group).Ok? { GroupFitsExactlyWhen(c, p, group); }
  }

  lemma GroupLowersExactlyWhen(c: Compiler, p: Project, group: Extension)
    requires Injective(c) && Sealed(c, p.components) && NamesNoWrapper(c, group)
    ensures Lower(CompilerAt(c, p.version, p.stages), Fresh(p.components), group).Ok? <==>
              && (forall b | b in Reads(group) :: InReach(c.root.inputs, p.stages, p.components, b))
              && (forall a, b | a in Reads(group) && b in Reads(group) && LiftKey(c, a) == LiftKey(c, b) :: a == b)
              && TargetsFit(p.components, group) && IdFits(c)
  {
    hide Injective, Readable, TargetsFit, Lower, LiftKey, WrappersNamed, NamesNoWrapper, Reads;
    var c1 := CompilerAt(c, p.version, p.stages);
    SameCompiler(c, c1);
    SameNames(c, c1, group);
    assert Sealed(c1, p.components) && (IdFits(c1) <==> IdFits(c));
    forall b ensures InScope(c1, p.components, b) <==> InReach(c.root.inputs, p.stages, p.components, b) {
      InReachIs(c, p, b);
    }
    forall b: Binding | b.Bound? ensures LiftKey(c1, b) == LiftKey(c, b) { SameKey(c, c1, b); }
    LoweringSucceedsExactlyWhen(c1, p.components, group);
  }

  lemma GroupFitsExactlyWhen(c: Compiler, p: Project, group: Extension)
    requires WrappersNamed(c) && Lower(CompilerAt(c, p.version, p.stages), Fresh(p.components), group).Ok?
    ensures ApplyOne(c, p, Composed(group)).Ok? <==> EdgeFits(p.stages, group.head)
  {
    hide Lower, S.Plan, WrappersNamed, Insert;
    var c1 := CompilerAt(c, p.version, p.stages);
    SameCompiler(c, c1);
    var (ref, final) := Lower(c1, Fresh(p.components), group).value;
    LoweredIsNamed(c1, Fresh(p.components), group);
    InsertsExactlyWhen(p.(components := final.components), GroupCall(group, ref, final), ref);
    S.PlansExactlyWhen(p.stages, GroupCall(group, ref, final));
  }

  lemma SameKey(c: Compiler, c1: Compiler, b: Binding)
    requires b.Bound? && c1.fingerprint == c.fingerprint
    ensures LiftKey(c1, b) == LiftKey(c, b)
  {
  }

  lemma {:induction false} SameNames(c: Compiler, c1: Compiler, ext: Extension)
    requires c1.identity == c.identity && c1.root.id == c.root.id
    ensures NamesNoWrapper(c1, ext) <==> NamesNoWrapper(c, ext)
  {
    assert forall other :: WrapperId(c1, other) == WrapperId(c, other);
    if ext.Group? {
      forall m | m in ext.members ensures NamesNoWrapper(c1, m) <==> NamesNoWrapper(c, m) { SameNames(c, c1, m); }
    }
  }

  /** So the outputs of a stage inserted before are in reach. */
  lemma InsertedOutputsAreInReach(c: Compiler, p: Project, ins: S.Insertion, ref: Ref, i: nat, port: string)
    requires Insert(p, ins, ref).Ok? && i < |p.components| && p.components[i].ref == ref
    requires port in p.components[i].doc.outputs
    ensures var after := Insert(p, ins, ref).value;
            InReach(c.root.inputs, after.stages, after.components, Bound(StageOutput(S.StageIdOf(ins), port), None))
  {
    hide S.Plan, S.Spliced;
    InsertsExactlyWhen(p, ins, ref);
    S.InsertedStageIs(p.stages, ins, ref);
  }

  /** What is in reach at one point stays so: its stage is kept, and components are only added. */
  lemma StaysInReach(c: Compiler, p: Project, xs: seq<Contribution>, i: nat, b: Binding)
    requires Injective(c) && Linked(c, p.components, p.components) && GroupsFit(xs, p.components)
    requires ApplyAll(c, p, xs).Ok? && i <= |xs| && ApplyAll(c, p, xs[..i]).Ok?
    requires var before := ApplyAll(c, p, xs[..i]).value; InReach(c.root.inputs, before.stages, before.components, b)
    ensures var after := ApplyAll(c, p, xs).value; InReach(c.root.inputs, after.stages, after.components, b)
  {
    hide Injective, Linked, ApplyAll, GroupsFit;
    StagesKept(c, p, xs, i);
    Beginnings(c, p, xs, i);
    var before, after := ApplyAll(c, p, xs[..i]).value, ApplyAll(c, p, xs).value;
    if b.source.StageOutput? {
      var stage, port := before.stages[b.source.stage], b.source.port;
      var k :| 0 <= k < |before.components| && before.components[k].ref == stage.ref
               && port in before.components[k].doc.outputs;
      assert after.components[k] == before.components[k];
    }
  }

  /**
   The documents a group adds are of the revision the root then has and under
   its limits and policy; the call spliced in names the one that stands for
   the group.
   */
  lemma GroupDocumentsAre(c: Compiler, p: Project, group: Extension)
    requires Injective(c) && Sealed(c, p.components) && TitlesFit(p.components) && WrappersNamed(c)
    requires ApplyOne(c, p, Composed(group)).Ok? && group.head.onError != ""
    ensures var after := ApplyOne(c, p, Composed(group)).value;
            && p.components <= after.components && TitlesFit(after.components)
            && (forall j | |p.components| <= j < |after.components| ::
                  var doc := after.components[j].doc;
                  && doc.schemaVersion == p.version && doc.version == c.root.version && doc.limits == c.root.limits
                  && doc.policy == c.root.policy && StagesFit(after.components, doc.stages))
            && group.head.id in after.stages && Stands(after.components, group, after.stages[group.head.id].ref)
  {
    hide Injective, Lower, Stands, StagesFit, TypedAs, KeyIs, S.Plan, S.Spliced, InputsFit, WrappersNamed, IdIn;
    var c1 := CompilerAt(c, p.version, p.stages);
    SameCompiler(c, c1);
    GeneratedDocumentsFit(c1, p.components, group);
    var (ref, final) := Lower(c1, Fresh(p.components), group).value;
    LoweredIsNamed(c1, Fresh(p.components), group);
    InsertsExactlyWhen(p.(components := final.components), GroupCall(group, ref, final), ref);
    S.InsertedStageIs(p.stages, GroupCall(group, ref, final), ref);
    var after := ApplyOne(c, p, Composed(group)).value;
    forall j | |p.components| <= j < |after.components|
      ensures DocumentFits(c1, after.components, after.components[j]) { }
  }

  // ----- What later contributions do to the graph ----------------------------------------------------

  function FromOf(x: Contribution): string {
    if x.Single? then x.ins.from else x.group.head.from
  }

  function ToOf(x: Contribution): string {
    if x.Single? then x.ins.to else x.group.head.to
  }

  function StageOf(x: Contribution): string {
    if x.Single? then S.StageIdOf(x.ins) else x.group.head.id
  }

  predicate On(x: Contribution, from: string, to: string) {
    FromOf(x) == from && ToOf(x) == to
  }

  /**
   Where a route of stage `from` to `target` leads once these contributions are
   applied: each on its edge redirects it.
   */
  function Lead(later: seq<Contribution>, from: string, target: string): string {
    if later == [] then target
    else
      var before, last := Lead(later[..|later| - 1], from, target), later[|later| - 1];
      if On(last, from, before) then StageOf(last) else before
  }

  ghost predicate NoneOn(later: seq<Contribution>, from: string, to: string) {
    forall x | x in later :: !On(x, from, to)
  }

  function Redirected(stage: S.GraphStage, id: string, later: seq<Contribution>): S.GraphStage {
    stage.(routes := map r | r in stage.routes :: Lead(later, id, stage.routes[r]))
  }

  /** Every stage is still there, with nothing but its routes redirected. */
  ghost predicate Kept(before: map<string, S.GraphStage>, after: map<string, S.GraphStage>, later: seq<Contribution>) {
    forall s | s in before :: s in after && after[s] == Redirected(before[s], s, later)
  }

  lemma KeptByOne(c: Compiler, p: Project, x: Contribution)
    requires ApplyOne(c, p, x).Ok?
    ensures StageOf(x) !in p.stages && Kept(p.stages, ApplyOne(c, p, x).value.stages, [x])
  {
    hide Lower, S.CheckMentions, S.InsertedStage, S.VerdictsRequiredBy, S.Raised, CompilerAt;
    match x
    case Single(ins, ref) => KeptByInsert(p.stages, ins, ref, x);
    case Composed(group) =>
      var (ref, final) := Lower(CompilerAt(c, p.version, p.stages), Fresh(p.components), group).value;
      KeptByInsert(p.stages, GroupCall(group, ref, final), ref, x);
  }

  lemma KeptByInsert(stages: map<string, S.GraphStage>, ins: S.Insertion, ref: Ref, x: Contribution)
    requires S.Plan(stages, ins).Ok? && FromOf(x) == ins.from && ToOf(x) == ins.to && StageOf(x) == S.StageIdOf(ins)
    ensures S.StageIdOf(ins) !in stages && ins.from in stages
    ensures Kept(stages, S.Spliced(stages, ins, ref, S.Plan(stages, ins).value), [x])
  {
    hide S.CheckMentions, S.InsertedStage;
    S.InsertionIsReversible(stages, ins, ref);
    var after := S.Spliced(stages, ins, ref, S.Plan(stages, ins).value);
    forall s | s in stages ensures s in after && after[s] == Redirected(stages[s], s, [x]) {
      assert forall t :: Lead([x][..0], s, t) == t;
      assert after[s].routes == Redirected(stages[s], s, [x]).routes by {
        forall r | r in stages[s].routes
          ensures r in after[s].routes && after[s].routes[r] == Lead([x], s, stages[s].routes[r]) {
          assert s == ins.from ==> r !in S.RoutesTo(after[s], ins.to);
        }
      }
    }
  }

  lemma KeptTwice(first: map<string, S.GraphStage>, second: map<string, S.GraphStage>, third: map<string, S.GraphStage>,
                  later: seq<Contribution>, x: Contribution)
    requires Kept(first, second, later) && Kept(second, third, [x])
    ensures Kept(first, third, later + [x])
  {
    forall s | s in first ensures s in third && third[s] == Redirected(first[s], s, later + [x]) {
      assert second[s] == Redirected(first[s], s, later) && third[s] == Redirected(second[s], s, [x]);
      forall t ensures Lead(later + [x], s, t) == Lead([x], s, Lead(later, s, t)) { LeadOneMore(later, x, s, t); }
      assert third[s].routes == Redirected(first[s], s, later + [x]).routes;
    }
  }

  lemma LeadOneMore(later: seq<Contribution>, x: Contribution, from: string, target: string)
    ensures Lead(later + [x], from, target) == Lead([x], from, Lead(later, from, target))
  {
    assert (later + [x])[..|later|] == later;
    assert Lead([x][..0], from, Lead(later, from, target)) == Lead(later, from, target);
  }

  /**
   In the finished graph every stage of an earlier one has its kind, reference,
   inputs and routes, redirected as `Lead` says.
   */
  lemma {:induction false} StagesKept(c: Compiler, p: Project, xs: seq<Contribution>, i: nat)
    requires ApplyAll(c, p, xs).Ok? && i <= |xs|
    ensures ApplyAll(c, p, xs[..i]).Ok?
    ensures Kept(ApplyAll(c, p, xs[..i]).value.stages, ApplyAll(c, p, xs).value.stages, xs[i..])
    ensures forall x | x in xs[i..] :: StageOf(x) !in ApplyAll(c, p, xs[..i]).value.stages
  {
    hide ApplyOne, Kept, StageOf;
    if i == |xs| {
      assert xs[..i] == xs && xs[i..] == [];
      NothingLater(ApplyAll(c, p, xs).value.stages);
    } else {
      var front, last := xs[..|xs| - 1], xs[|xs| - 1];
      StagesKept(c, p, front, i);
      assert front[..i] == xs[..i] && xs[i..] == front[i..] + [last];
      var p0, p1 := ApplyAll(c, p, xs[..i]).value, ApplyAll(c, p, front).value;
      KeptByOne(c, p1, last);
      KeptTwice(p0.stages, p1.stages, ApplyAll(c, p, xs).value.stages, front[i..], last);
      KeptHas(p0.stages, p1.stages, front[i..]);
    }
  }

  lemma KeptHas(before: map<string, S.GraphStage>, after: map<string, S.GraphStage>, later: seq<Contribution>)
    requires Kept(before, after, later)
    ensures before.Keys <= after.Keys
  {
  }

  lemma NothingLater(stages: map<string, S.GraphStage>)
    ensures Kept(stages, stages, [])
  {
    forall s | s in stages ensures stages[s] == Redirected(stages[s], s, []) {
      assert stages[s].routes == Redirected(stages[s], s, []).routes;
    }
  }

  /** A route to a stage that no later contribution brings stays exactly if none of them is on that edge. */
  lemma {:induction false} LeadStaysExactlyWhen(later: seq<Contribution>, from: string, target: string)
    requires forall x | x in later :: StageOf(x) != target
    ensures Lead(later, from, target) == target <==> NoneOn(later, from, target)
  {
    if later != [] {
      var front, last := later[..|later| - 1], later[|later| - 1];
      LeadStaysExactlyWhen(front, from, target);
      assert later == front + [last] && last in later;
    }
  }

  /** The stages a group's call leads to exist when it is inserted. */
  lemma TargetsExist(c: Compiler, before: Project, group: Extension)
    requires ApplyOne(c, before, Composed(group)).Ok?
    ensures var h, after := group.head, ApplyOne(c, before, Composed(group)).value.stages;
            h.id in after && (forall v | v in h.on :: h.on[v] in after) && (h.onError != "" ==> h.onError in after)
  {
    hide Lower, CompilerAt, S.InsertedStage, S.CheckSources;
  }

  lemma EdgesKeptExactlyWhen(c: Compiler, p: Project, xs: seq<Contribution>, i: nat, group: Extension)
    requires ApplyAll(c, p, xs).Ok? && i <= |xs| && ApplyAll(c, p, xs[..i]).Ok? && group.head.onError != ""
    requires var h, after := group.head, ApplyAll(c, p, xs[..i]).value.stages;
             h.id in after && (forall v | v in h.on :: h.on[v] in after) && h.onError in after
    ensures var h, later := group.head, xs[i..];
            && (Lead(later, h.from, h.id) == h.id <==> NoneOn(later, h.from, h.id))
            && (forall v | v in h.on :: Lead(later, h.id, h.on[v]) == h.on[v] <==> NoneOn(later, h.id, h.on[v]))
            && (Lead(later, h.id, h.onError) == h.onError <==> NoneOn(later, h.id, h.onError))
  {
    hide ApplyOne, Kept, StageOf, NoneOn, Lead;
    StagesKept(c, p, xs, i);
    var h, later := group.head, xs[i..];
    LeadStaysExactlyWhen(later, h.from, h.id);
    LeadStaysExactlyWhen(later, h.id, h.onError);
    forall v | v in h.on ensures Lead(later, h.id, h.on[v]) == h.on[v] <==> NoneOn(later, h.id, h.on[v]) {
      LeadStaysExactlyWhen(later, h.id, h.on[v]);
    }
  }

  // ----- What the finished project does --------------------------------------------------------------

  /** Groups are well formed, have an error route, and their leaves name authored components. */
  ghost predicate GroupsFit(xs: seq<Contribution>, authored: seq<Component>) {
    forall x | x in xs && x.Composed? ::
      WellFormed(x.group) && AllAuthored(x.group, authored) && x.group.head.onError != ""
  }

  /** Generated identities end in a name. */
  ghost predicate WrappersNamed(c: Compiler) {
    forall ext | WrapperId(c, ext).Ok? :: ShortName(WrapperId(c, ext).value) != ""
  }

  lemma LoweredIsNamed(c: Compiler, st: State, ext: Extension)
    requires WrappersNamed(c) && Lower(c, st, ext).Ok?
    ensures ShortName(Lower(c, st, ext).value.0.id) != ""
  {
    assert WrapperId(c, ext).Ok? && Lower(c, st, ext).value.0.id == WrapperId(c, ext).value;
  }

  lemma OneKeepsLinked(c: Compiler, authored: seq<Component>, p: Project, x: Contribution)
    requires Injective(c) && Linked(c, authored, p.components) && GroupsFit([x], authored) && ApplyOne(c, p, x).Ok?
    ensures var all := ApplyOne(c, p, x).value.components; Linked(c, authored, all) && p.components <= all
  {
    hide Linked, Lower, Injective;
    assert x in [x];
    if x.Composed? { NextIsLinked(CompilerAt(c, p.version, p.stages), c, authored, p.components, x.group); }
  }

  /** Applying the first contributions succeeds if applying all does, and lists a linked beginning of the final list. */
  lemma {:induction false} Beginnings(c: Compiler, p: Project, xs: seq<Contribution>, i: nat)
    requires Injective(c) && Linked(c, p.components, p.components) && GroupsFit(xs, p.components)
    requires ApplyAll(c, p, xs).Ok? && i <= |xs|
    ensures ApplyAll(c, p, xs[..i]).Ok?
            && ApplyAll(c, p, xs[..i]).value.components <= ApplyAll(c, p, xs).value.components
    ensures Linked(c, p.components, ApplyAll(c, p, xs).value.components)
  {
    hide Linked, ApplyOne, Injective;
    if i == |xs| { assert xs[..i] == xs; }
    if xs != [] {
      var front, last := xs[..|xs| - 1], xs[|xs| - 1];
      assert forall x | x in front :: x in xs;
      Beginnings(c, p, front, if i < |xs| then i else 0);
      assert i < |xs| ==> front[..i] == xs[..i];
      assert last in xs && forall x | x in [last] :: x == last;
      OneKeepsLinked(c, p.components, ApplyAll(c, p, front).value, last);
    }
  }

  /**
   The route the group's edge had in `before` leads, in the graph `end` that
   the contributions `later` have left, where they lead what enters the call.
   The call is there as it was inserted. Entering it, with all components
   listed at the end run by their stage graphs, evaluates the authored tree
   and leaves for where they lead the route declared for its result.
   */
  ghost predicate RunsAsWritten(c: Compiler, w: World, before: Project, end: Project, later: seq<Contribution>,
                                group: Extension, path: seq<string>) {
    && WellFormed(group) && Lower(c, Fresh(before.components), group).Ok?
    && var (ref, final) := Lower(c, Fresh(before.components), group).value;
       var plan, h := S.Plan(before.stages, GroupCall(group, ref, final)), group.head;
       && plan.Ok? && EdgeLeads(before.stages, end.stages, h, plan.value, Lead(later, h.from, h.id))
       && h.id in end.stages && end.stages[h.id] == Redirected(CallOf(group, ref, final), h.id, later)
       && EnterCall(w.rt, w.scope, end.stages[h.id], path, Execute(w.rt, end.components, |w.authored|, w.invoke))
          == LeadOn(later, h.id, Leaving(w.rt, w.scope, group, final, MeaningOf(w, group, path)))
  }

  /** The route that was the edge of `h` leads to `target` in the end. */
  ghost predicate EdgeLeads(before: map<string, S.GraphStage>, end: map<string, S.GraphStage>, h: Head, route: S.Route,
                            target: string) {
    && h.from in before && route in before[h.from].routes && before[h.from].routes[route] == h.to
    && h.from in end && route in end[h.from].routes && end[h.from].routes[route] == target
  }

  function LeadOn(later: seq<Contribution>, stage: string,
                  leaving: (Option<string>, seq<Event>)): (Option<string>, seq<Event>) {
    (if leaving.0.Some? then Some(Lead(later, stage, leaving.0.value)) else None, leaving.1)
  }

  /**
   Every group of a root, in the finished project. Its call is bound as the
   tree was lowered, so entering it evaluates the tree its author wrote, and
   it leaves by the route the group declares for the result; technical
   failures of any member, and sources that cannot be bound, reach the
   group's own error route. A contribution applied later may stand on an edge
   into the call or out of it, and then on that edge only: what enters goes
   straight to the call exactly if none stands on the edge into it, and what
   leaves goes straight to the declared stage exactly if none stands on that
   edge; else both lead to what stands there (`Lead`).
   */
  lemma InsertedGroupRunsAsWritten(c: Compiler, rt: Runtime, scope: Scope, p: Project, xs: seq<Contribution>,
                                   leaf: Invocation, i: nat, path: seq<string>)
    requires Injective(c) && Sealed(c, p.components) && UniqueRefs(p.components) && RunsOwn(rt, leaf, p.components)
             && SettlesAll(rt)
    requires WrappersNamed(c) && GroupsFit(xs, p.components)
    requires ApplyAll(c, p, xs).Ok? && i < |xs| && xs[i].Composed?
    ensures ApplyAll(c, p, xs[..i]).Ok?
    ensures var before, h, later := ApplyAll(c, p, xs[..i]).value, xs[i].group.head, xs[i + 1..];
            && RunsAsWritten(CompilerAt(c, before.version, before.stages), World(rt, scope, leaf, p.components),
                             before, ApplyAll(c, p, xs).value, later, xs[i].group, path)
            && (Lead(later, h.from, h.id) == h.id <==> NoneOn(later, h.from, h.id))
            && (forall v | v in h.on :: Lead(later, h.id, h.on[v]) == h.on[v] <==> NoneOn(later, h.id, h.on[v]))
            && (Lead(later, h.id, h.onError) == h.onError <==> NoneOn(later, h.id, h.onError))
  {
    hide Injective, RunsOwn, Lower, SettlesAll, WrappersNamed, Linked, RunsAsWritten, ApplyOne, Kept, UniqueRefs,
         Sealed;
    var group, end := xs[i].group, ApplyAll(c, p, xs).value;
    AuthoredIsLinked(c, p.components);
    Beginnings(c, p, xs, i);
    Beginnings(c, p, xs, i + 1);
    assert xs[..i + 1][..i] == xs[..i];
    var before := ApplyAll(c, p, xs[..i]).value;
    BeginningIsLinked(c, p, xs, i);
    assert xs[i] in xs;
    StagesKept(c, p, xs, i + 1);
    GroupRunsAsWritten(c, rt, scope, p.components, before, end, xs[i + 1..], leaf, group, path);
    TargetsExist(c, before, group);
    EdgesKeptExactlyWhen(c, p, xs, i + 1, group);
  }

  lemma BeginningIsLinked(c: Compiler, p: Project, xs: seq<Contribution>, i: nat)
    requires Injective(c) && Linked(c, p.components, p.components) && GroupsFit(xs, p.components)
    requires i <= |xs| && ApplyAll(c, p, xs[..i]).Ok?
    ensures Linked(c, p.components, ApplyAll(c, p, xs[..i]).value.components)
  {
    assert forall x | x in xs[..i] :: x in xs;
    Beginnings(c, p, xs[..i], 0);
  }

  lemma GroupRunsAsWritten(c: Compiler, rt: Runtime, scope: Scope, authored: seq<Component>, before: Project,
                           end: Project, later: seq<Contribution>, leaf: Invocation, group: Extension,
                           path: seq<string>)
    requires Injective(c) && RunsOwn(rt, leaf, authored) && SettlesAll(rt) && WrappersNamed(c)
    requires Linked(c, authored, before.components) && Linked(c, authored, end.components)
    requires WellFormed(group) && AllAuthored(group, authored) && group.head.onError != ""
    requires var after := ApplyOne(c, before, Composed(group));
             after.Ok? && after.value.components <= end.components && Kept(after.value.stages, end.stages, later)
    ensures RunsAsWritten(CompilerAt(c, before.version, before.stages), World(rt, scope, leaf, authored), before, end,
                          later, group, path)
  {
    hide Injective, RunsOwn, MeaningOf, Lower, Execute, SettlesAll, WrappersNamed, EnterCall, Leaving, AllAuthored,
         WellFormed, AllLinked, UniqueRefs, Sealed, LeadOn, Redirected;
    var c1 := CompilerAt(c, before.version, before.stages);
    SameCompiler(c, c1);
    var (ref, final) := Lower(c1, Fresh(before.components), group).value;
    LoweredIsNamed(c1, Fresh(before.components), group);
    EdgeEntersCall(group, ref, final, before.stages);
    NextIsLinked(c1, c, authored, before.components, group);
    assert Listed(c1, World(rt, scope, leaf, authored), before.components, group, end.components) by {
      SameDigest(c, c1, authored, end.components);
    }
    SameDigest(c, c1, authored, end.components);
    CompiledGroupRunsAsWritten(c1, rt, scope, authored, before.components, end.components, leaf, group, path);
    var after := ApplyOne(c, before, Composed(group)).value.stages;
    CallLeadsOn(rt, scope, group, ref, final, later, path, Execute(rt, end.components, |authored|, leaf),
                MeaningOf(World(rt, scope, leaf, authored), group, path));
    RedirectedAt(after[group.head.from], group.head.from, later,
                 S.Plan(before.stages, GroupCall(group, ref, final)).value);
  }

  lemma RedirectedAt(stage: S.GraphStage, id: string, later: seq<Contribution>, route: S.Route)
    requires route in stage.routes
    ensures route in Redirected(stage, id, later).routes
    ensures Redirected(stage, id, later).routes[route] == Lead(later, id, stage.routes[route])
  {
  }

  /** Redirecting the call's routes changes where it leaves for, not what entering it does. */
  lemma CallLeadsOn(rt: Runtime, scope: Scope, group: Extension, ref: Ref, final: State, later: seq<Contribution>,
                    path: seq<string>, invoke: Invocation, meaning: Run)
    requires FetchAll(rt, scope, final.external).Some? ==>
               invoke(ref, FetchAll(rt, scope, final.external).value, path) == meaning
    ensures EnterCall(rt, scope, Redirected(CallOf(group, ref, final), group.head.id, later), path, invoke)
            == LeadOn(later, group.head.id, Leaving(rt, scope, group, final, meaning))
  {
    EnteringCall(rt, scope, group, ref, final, path, invoke, meaning);
  }

  lemma SameCompiler(c: Compiler, c1: Compiler)
    requires c1.digest == c.digest && c1.identity == c.identity && c1.root.id == c.root.id
    ensures Injective(c) ==> Injective(c1)
    ensures WrappersNamed(c) ==> WrappersNamed(c1)
  {
    assert forall ext :: WrapperId(c1, ext) == WrapperId(c, ext);
  }

  lemma SameDigest(c: Compiler, c1: Compiler, authored: seq<Component>, all: seq<Component>)
    requires c1.digest == c.digest && Linked(c, authored, all)
    ensures Linked(c1, authored, all) && Sealed(c1, all)
  {
  }
}
