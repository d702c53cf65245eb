/** Splicing one stage onto one edge of a workflow graph, in place. */
module Splice {
  import opened Prelude
  import opened Flow

  datatype Route = OnVerdict(name: string) | OnComplete(name: string) | OnLimit | OnError | OnUnknown | OnDefault

  datatype GraphStage = GraphStage(
    kind: string, ref: Ref, inputs: map<string, Binding>, routes: map<Route, string>, impossible: seq<string>)

  /**
   An extension aimed at one edge, with its bindings already compiled. `input`
   is the stage, output and port of a single bound input; `sources` are the
   parsed input expressions in the order they are visited.
   */
  datatype Insertion = Insertion(
    id: string, stageId: string, step: string, call: string, composed: bool,
    from: string, to: string, on: map<string, string>, onError: string,
    bindings: map<string, Binding>, input: Option<(string, string, string)>, sources: seq<(string, Source)>,
    impossible: seq<string>)

  const KNOWN_REVISIONS := ["1", "2", "3", "4", "5", "6", "7", "8"]
  const VERDICT_REVISION := "4"
  const BLOCKED_REVISION := "6"
  const STEP_VERDICTS := ["pass", "fail", "needs_revision", "no_work", "blocked"]
  const SEALED_VERDICTS := ["pass", "fail", "needs_revision", "no_work"]

  const UNKNOWN_STAGE := "project_extension_unknown_stage"
  const STAGE_TAKEN := "project_extension_stage_conflict"
  const ROUTE_MISSING := "project_extension_route_missing"
  const ROUTE_AMBIGUOUS := "project_extension_route_ambiguous"
  const INVALID_EXTENSION := "project_extension_invalid"

  // ----- Revisions ---------------------------------------------------------------------

  function IndexIn(list: seq<string>, x: string): (i: int)
    ensures i >= -1 && (i == -1 <==> x !in list)
    ensures i >= 0 ==> i < |list| && list[i] == x
  {
    if list == [] then -1
    else if list[|list| - 1] == x && IndexIn(list[..|list| - 1], x) < 0 then |list| - 1
    else IndexIn(list[..|list| - 1], x)
  }

  /** The first revision is the second or newer; unknown revisions compare with nothing. */
  predicate AtLeast(version: string, other: string) {
    var at, to := IndexIn(KNOWN_REVISIONS, version), IndexIn(KNOWN_REVISIONS, other);
    at >= 0 && to >= 0 && at >= to
  }

  function Raised(current: string): string {
    if current == "" || AtLeast(VERDICT_REVISION, current) then VERDICT_REVISION else current
  }

  function VerdictsRequiredBy(version: string): seq<string> {
    if AtLeast(version, BLOCKED_REVISION) then STEP_VERDICTS else SEALED_VERDICTS
  }

  /** Raising never lowers a known revision and leaves an unknown one alone. */
  lemma RaisedIsNotLower(current: string)
    ensures current in KNOWN_REVISIONS ==> AtLeast(Raised(current), current)
    ensures current !in KNOWN_REVISIONS && current != "" ==> Raised(current) == current
    ensures current == "" || current in KNOWN_REVISIONS ==> AtLeast(Raised(current), VERDICT_REVISION)
  {
    assert KNOWN_REVISIONS[3] == VERDICT_REVISION;
    assert VERDICT_REVISION in KNOWN_REVISIONS;
  }

  // ----- Planning an insertion -----------------------------------------------------------

  function StageIdOf(ins: Insertion): string {
    if ins.stageId != "" then ins.stageId
    else if ins.call != "" || ins.composed then ins.id
    else ins.step
  }

  function RoutesTo(stage: GraphStage, to: string): set<Route> {
    set r | r in stage.routes && stage.routes[r] == to
  }

  /** A source names a stage of the graph, or an input if the insertion is composed. */
  predicate SourceOk(stages: map<string, GraphStage>, composed: bool, source: Source) {
    match source
    case StageOutput(stage, _) => stage in stages
    case WorkflowInput(_) => composed
    case OtherSource(_, _) => false
  }

  function SourceRefusal(source: Source): string {
    if source.StageOutput? then UNKNOWN_STAGE else INVALID_EXTENSION
  }

  /** The first source that is not acceptable decides how an insertion is refused. */
  function CheckSources(stages: map<string, GraphStage>, composed: bool, sources: seq<(string, Source)>): Result<()> {
    if sources == [] then Ok(())
    else
      var before :- CheckSources(stages, composed, sources[..|sources| - 1]);
      var last := sources[|sources| - 1].1;
      if SourceOk(stages, composed, last) then Ok(()) else Refused(SourceRefusal(last))
  }

  /** Every stage an insertion mentions besides its edge exists. */
  function CheckMentions(stages: map<string, GraphStage>, ins: Insertion): Result<()> {
    if exists v | v in ins.on :: ins.on[v] !in stages then Refused(UNKNOWN_STAGE)
    else if ins.onError != "" && ins.onError !in stages then Refused(UNKNOWN_STAGE)
    else if ins.input.Some? && ins.input.value.0 !in stages then Refused(UNKNOWN_STAGE)
    else CheckSources(stages, ins.composed, ins.sources)
  }

  /** The one route an insertion would redirect, or why it is refused; nothing is changed yet. */
  function Plan(stages: map<string, GraphStage>, ins: Insertion): Result<Route> {
    if StageIdOf(ins) in stages then Refused(STAGE_TAKEN)
    else if ins.from !in stages || ins.to !in stages then Refused(UNKNOWN_STAGE)
    else
      var routes := RoutesTo(stages[ins.from], ins.to);
      if routes == {} then Refused(ROUTE_MISSING)
      else if |routes| != 1 then Refused(ROUTE_AMBIGUOUS)
      else
        var mentions :- CheckMentions(stages, ins);
        Ok(TheRoute(routes))
  }

  ghost predicate Only(routes: set<Route>, r: Route) {
    routes == {r}
  }

  function TheRoute(routes: set<Route>): (r: Route)
    requires |routes| == 1
    ensures Only(routes, r)
  {
    SingletonHasOne(routes);
    var r :| r in routes;
    r
  }

  lemma SingletonHasOne(routes: set<Route>)
    requires |routes| == 1
    ensures forall a, b | a in routes && b in routes :: a == b
    ensures routes != {} && forall a | a in routes :: routes == {a}
  {
    forall a | a in routes ensures routes == {a} {
      assert {a} <= routes;
      SubsetOfSameSize({a}, routes);
    }
  }

  function SourceBindings(sources: seq<(string, Source)>): map<string, Binding> {
    if sources == [] then map[]
    else SourceBindings(sources[..|sources| - 1])[sources[|sources| - 1].0 := Bound(sources[|sources| - 1].1, None)]
  }

  /** All bindings of the inserted stage; a later kind of binding replaces an earlier one of the same port. */
  function BindingsOf(ins: Insertion): map<string, Binding> {
    ins.bindings
    + (if ins.input.Some? then map[ins.input.value.2 := Bound(StageOutput(ins.input.value.0, ins.input.value.1), None)]
       else map[])
    + SourceBindings(ins.sources)
  }

  function VerdictRoutes(on: map<string, string>): map<Route, string> {
    map r: Route | r in (set v | v in on :: OnVerdict(v)) && r.OnVerdict? && r.name in on :: on[r.name]
  }

  lemma VerdictRoutesAre(on: map<string, string>, r: Route)
    ensures r in VerdictRoutes(on) <==> r.OnVerdict? && r.name in on
    ensures r in VerdictRoutes(on) ==> VerdictRoutes(on)[r] == on[r.name]
  {
    assert r.OnVerdict? && r.name in on ==> r in (set v | v in on :: OnVerdict(v));
  }

  function InsertedStage(ins: Insertion, ref: Ref): GraphStage {
    if ins.call != "" then
      GraphStage("call", ref, BindingsOf(ins), VerdictRoutes(ins.on)
        + (if ins.onError != "" then map[OnError := ins.onError] else map[]), [])
    else
      GraphStage("step", ref, BindingsOf(ins), VerdictRoutes(ins.on), ins.impossible)
  }

  /** The graph with the planned route redirected to the inserted stage. */
  function Spliced(stages: map<string, GraphStage>, ins: Insertion, ref: Ref, route: Route): map<string, GraphStage>
    requires ins.from in stages
  {
    var source := stages[ins.from];
    stages
      [ins.from := source.(routes := source.routes[route := StageIdOf(ins)])]
      [StageIdOf(ins) := InsertedStage(ins, ref)]
  }

  // ----- In place --------------------------------------------------------------------------

  class ProjectWorkflow {
    var schemaVersion: string
    var stages: map<string, GraphStage>

    constructor (schemaVersion: string, stages: map<string, GraphStage>)
      ensures this.schemaVersion == schemaVersion && this.stages == stages
    {
      this.schemaVersion, this.stages := schemaVersion, stages;
    }

    /** Collect the routes of the source stage that lead to the target. */
    method FindRoutes(from: string, to: string) returns (routes: seq<Route>)
      requires from in stages
      ensures Distinct(routes) && Elements(routes) == RoutesTo(stages[from], to)
    {
      routes := [];
      var source := stages[from];
      var rest := source.routes.Keys;
      while rest != {}
        invariant rest <= source.routes.Keys && Distinct(routes)
        invariant Elements(routes) == RoutesTo(source, to) - rest
      {
        var r :| r in rest;
        rest := rest - {r};
        if source.routes[r] == to {
          assert r !in routes;
          assert Elements(routes + [r]) == Elements(routes) + {r};
          routes := routes + [r];
        }
      }
    }

    method CheckEach(ins: Insertion) returns (r: Result<()>)
      ensures r == CheckMentions(stages, ins)
    {
      var rest := ins.on.Keys;
      while rest != {}
        invariant rest <= ins.on.Keys && forall v | v in ins.on && v !in rest :: ins.on[v] in stages
      {
        var v :| v in rest;
        rest := rest - {v};
        if ins.on[v] !in stages {
          return Refused(UNKNOWN_STAGE);
        }
      }
      if ins.onError != "" && ins.onError !in stages {
        return Refused(UNKNOWN_STAGE);
      }
      if ins.input.Some? && ins.input.value.0 !in stages {
        return Refused(UNKNOWN_STAGE);
      }
      for i := 0 to |ins.sources|
        invariant CheckSources(stages, ins.composed, ins.sources[..i]) == Ok(())
      {
        assert ins.sources[..i + 1][..i] == ins.sources[..i];
        var source := ins.sources[i].1;
        if !SourceOk(stages, ins.composed, source) {
          SourcesRefused(stages, ins.composed, ins.sources, i + 1);
          return Refused(SourceRefusal(source));
        }
      }
      assert ins.sources[..|ins.sources|] == ins.sources;
      return Ok(());
    }

    /** The planned route, found by the checks in their order. */
    method Prepare(ins: Insertion) returns (r: Result<Route>)
      ensures r == Plan(stages, ins)
    {
      if StageIdOf(ins) in stages {
        return Refused(STAGE_TAKEN);
      }
      if ins.from !in stages || ins.to !in stages {
        return Refused(UNKNOWN_STAGE);
      }
      var routes := FindRoutes(ins.from, ins.to);
      DistinctSize(routes);
      if |routes| == 0 {
        return Refused(ROUTE_MISSING);
      }
      assert routes[0] in Elements(routes);
      if |routes| != 1 {
        return Refused(ROUTE_AMBIGUOUS);
      }
      var mentions := CheckEach(ins);
      if mentions.Refused? {
        return Refused(mentions.code);
      }
      assert Only(RoutesTo(stages[ins.from], ins.to), TheRoute(RoutesTo(stages[ins.from], ins.to)));
      return Ok(routes[0]);
    }

    /**
     Insert one stage. A refusal leaves the workflow as it was, with one
     exception: an impossible verdict the resulting revision does not know is
     refused after the stage went in and the revision was raised.
     */
    method Apply(ins: Insertion, ref: Ref) returns (r: Result<()>)
      modifies this
      ensures Plan(old(stages), ins).Refused? ==>
                r == Refused(Plan(old(stages), ins).code) && stages == old(stages)
                && schemaVersion == old(schemaVersion)
      ensures Plan(old(stages), ins).Ok? ==>
                && stages == Spliced(old(stages), ins, ref, Plan(old(stages), ins).value)
                && schemaVersion
                  == (if ins.call == "" && ins.impossible != [] then Raised(old(schemaVersion)) else old(schemaVersion))
                && (r.Refused? <==>
                      ins.call == "" && exists v :: v in ins.impossible && v !in VerdictsRequiredBy(schemaVersion))
                && (r.Refused? ==> r.code == INVALID_EXTENSION)
    {
      var route := Prepare(ins);
      if route.Refused? {
        return Refused(route.code);
      }
      var source := stages[ins.from];
      stages := stages[ins.from := source.(routes := source.routes[route.value := StageIdOf(ins)])];
      stages := stages[StageIdOf(ins) := InsertedStage(ins, ref)];
      if ins.call == "" && ins.impossible != [] {
        r := DeclareImpossible(ins.impossible);
      } else {
        r := Ok(());
      }
    }

    /** Raise the revision to one that admits the declaration, then check it against that revision's verdicts. */
    method DeclareImpossible(impossible: seq<string>) returns (r: Result<()>)
      modifies this`schemaVersion
      ensures schemaVersion == Raised(old(schemaVersion))
      ensures r.Refused? <==> exists v :: v in impossible && v !in VerdictsRequiredBy(schemaVersion)
      ensures r.Refused? ==> r.code == INVALID_EXTENSION
    {
      if schemaVersion == "" || AtLeast(VERDICT_REVISION, schemaVersion) {
        schemaVersion := VERDICT_REVISION;
      }
      var answered := VerdictsRequiredBy(schemaVersion);
      for i := 0 to |impossible|
        invariant forall j | 0 <= j < i :: impossible[j] in answered
      {
        if impossible[i] !in answered {
          assert impossible[i] in impossible;
          return Refused(INVALID_EXTENSION);
        }
      }
      return Ok(());
    }
  }

  lemma {:induction false} SourcesRefused(stages: map<string, GraphStage>, composed: bool,
                                          sources: seq<(string, Source)>, i: nat)
    requires i <= |sources| && CheckSources(stages, composed, sources[..i]).Refused?
    ensures CheckSources(stages, composed, sources) == CheckSources(stages, composed, sources[..i])
  {
    if i < |sources| {
      assert sources[..|sources| - 1][..i] == sources[..i];
      SourcesRefused(stages, composed, sources[..|sources| - 1], i);
    } else {
      assert sources[..i] == sources;
    }
  }

  // ----- What an insertion does to the graph ---------------------------------------------------

  /** Take the stage out again and point its one incoming route back at the target. */
  function Removed(stages: map<string, GraphStage>, ins: Insertion, route: Route): map<string, GraphStage>
    requires ins.from in stages
  {
    var source := stages[ins.from];
    (stages - {StageIdOf(ins)})[ins.from := source.(routes := source.routes[route := ins.to])]
  }

  /** An insertion can be undone, and apart from the new stage it changes one route. */
  lemma InsertionIsReversible(stages: map<string, GraphStage>, ins: Insertion, ref: Ref)
    requires Plan(stages, ins).Ok?
    ensures var route := Plan(stages, ins).value;
            var after := Spliced(stages, ins, ref, route);
            && Removed(after, ins, route) == stages
            && route in stages[ins.from].routes && stages[ins.from].routes[route] == ins.to
            && RoutesTo(after[ins.from], ins.to) == {} && RoutesTo(after[ins.from], StageIdOf(ins)) >= {route}
            && (forall s | s in stages && s != ins.from :: after[s] == stages[s])
            && (forall r | r in stages[ins.from].routes
              && r != route :: after[ins.from].routes[r] == stages[ins.from].routes[r])
            && after.Keys == stages.Keys + {StageIdOf(ins)}
  {
    hide InsertedStage, CheckMentions;
    var route := Plan(stages, ins).value;
    var after := Spliced(stages, ins, ref, route);
    assert Only(RoutesTo(stages[ins.from], ins.to), route);
    assert route in RoutesTo(stages[ins.from], ins.to);
    var source := stages[ins.from];
    assert after[ins.from].routes[route := ins.to] == source.routes;
    assert Removed(after, ins, route) == stages;
    forall r | r in after[ins.from].routes ensures after[ins.from].routes[r] != ins.to {
      assert r != route && source.routes[r] == ins.to ==> r in RoutesTo(source, ins.to);
    }
  }

  ghost predicate SameEdge(a: Insertion, b: Insertion) {
    a.from == b.from && a.to == b.to
  }

  /** A plan that was possible stays possible, with the same route, on a larger graph where its edge is as it was. */
  lemma PlanKept(stages: map<string, GraphStage>, more: map<string, GraphStage>, ins: Insertion)
    requires Plan(stages, ins).Ok? && stages.Keys <= more.Keys && StageIdOf(ins) !in more
    requires RoutesTo(more[ins.from], ins.to) == RoutesTo(stages[ins.from], ins.to)
    ensures Plan(more, ins) == Plan(stages, ins)
  {
    SourcesKept(stages, more, ins.composed, ins.sources);
  }

  lemma {:induction false} SourcesKept(stages: map<string, GraphStage>, more: map<string, GraphStage>, composed: bool,
                                       sources: seq<(string, Source)>)
    requires CheckSources(stages, composed, sources).Ok? && stages.Keys <= more.Keys
    ensures CheckSources(more, composed, sources).Ok?
  {
    if sources != [] { SourcesKept(stages, more, composed, sources[..|sources| - 1]); }
  }

  /**
   After one insertion, another that was possible is planned as before, unless it
   has the same edge: then its route is gone.
   */
  lemma PlanAfter(stages: map<string, GraphStage>, a: Insertion, b: Insertion, ref: Ref)
    requires Plan(stages, a).Ok? && Plan(stages, b).Ok? && StageIdOf(a) != StageIdOf(b)
    ensures var after := Spliced(stages, a, ref, Plan(stages, a).value);
            Plan(after, b) == if SameEdge(a, b) then Refused(ROUTE_MISSING) else Plan(stages, b)
  {
    var route := Plan(stages, a).value;
    var after := Spliced(stages, a, ref, route);
    InsertionIsReversible(stages, a, ref);
    if !SameEdge(a, b) {
      assert RoutesTo(after[b.from], b.to) == RoutesTo(stages[b.from], b.to) by {
        if a.from == b.from {
          assert stages[a.from].routes[route] == a.to != b.to;
          assert StageIdOf(a) != b.to;
        }
      }
      PlanKept(stages, after, b);
    }
  }

  /** Redirecting two different routes and adding two different stages is the same in either order. */
  lemma SplicesCommute(stages: map<string, GraphStage>, a: Insertion, b: Insertion, refA: Ref, refB: Ref, ra: Route,
                       rb: Route)
    requires a.from in stages && b.from in stages && StageIdOf(a) !in stages && StageIdOf(b) !in stages
    requires StageIdOf(a) != StageIdOf(b) && (a.from == b.from ==> ra != rb)
    ensures Spliced(Spliced(stages, a, refA, ra), b, refB, rb) == Spliced(Spliced(stages, b, refB, rb), a, refA, ra)
  {
    var ia, ib := StageIdOf(a), StageIdOf(b);
    var sa, sb := stages[a.from], stages[b.from];
    if a.from == b.from {
      assert sa.routes[ra := ia][rb := ib] == sa.routes[rb := ib][ra := ia];
      SplicedTwice(stages, a.from, sa.(routes := sa.routes[ra := ia]), sa.(routes := sa.routes[rb := ib]),
                   sa.(routes := sa.routes[ra := ia][rb := ib]), ia, InsertedStage(a, refA), ib,
                   InsertedStage(b, refB));
    } else {
      SplicedApart(stages, a.from, sa.(routes := sa.routes[ra := ia]), b.from, sb.(routes := sb.routes[rb := ib]),
                   ia, InsertedStage(a, refA), ib, InsertedStage(b, refB));
    }
  }

  lemma SplicedTwice<V>(m: map<string, V>, f: string, x: V, y: V, z: V, i: string, v: V, j: string, w: V)
    requires f != i && f != j && i != j
    ensures m[f := x][i := v][f := z][j := w] == m[f := y][j := w][f := z][i := v]
  {
  }

  lemma SplicedApart<V>(m: map<string, V>, f: string, x: V, g: string, y: V, i: string, v: V, j: string, w: V)
    requires f != g && f != i && f != j && g != i && g != j && i != j
    ensures m[f := x][i := v][g := y][j := w] == m[g := y][j := w][f := x][i := v]
  {
  }

  /**
   Two insertions that are each possible, with different stages, can both be
   made exactly when their edges differ, and then in either order with the
   same resulting graph.
   */
  lemma InsertionsCommute(stages: map<string, GraphStage>, a: Insertion, b: Insertion, refA: Ref, refB: Ref)
    requires Plan(stages, a).Ok? && Plan(stages, b).Ok? && StageIdOf(a) != StageIdOf(b)
    ensures var ra, rb := Plan(stages, a).value, Plan(stages, b).value;
            var afterA, afterB := Spliced(stages, a, refA, ra), Spliced(stages, b, refB, rb);
            if SameEdge(a, b) then Plan(afterA, b) == Plan(afterB, a) == Refused(ROUTE_MISSING)
            else
              && Plan(afterA, b) == Ok(rb) && Plan(afterB, a) == Ok(ra)
              && Spliced(afterA, b, refB, rb) == Spliced(afterB, a, refA, ra)
  {
    PlanAfter(stages, a, b, refA);
    PlanAfter(stages, b, a, refB);
    var ra, rb := Plan(stages, a).value, Plan(stages, b).value;
    if !SameEdge(a, b) {
      InsertionIsReversible(stages, a, refA);
      InsertionIsReversible(stages, b, refB);
      SplicesCommute(stages, a, b, refA, refB, ra, rb);
    }
  }

  // ----- What goes in ------------------------------------------------------------------------------

  /** The source listed last for a port, if one is. */
  ghost predicate LastSource(sources: seq<(string, Source)>, port: string, i: nat) {
    i < |sources| && sources[i].0 == port && forall j | i < j < |sources| :: sources[j].0 != port
  }

  /** A port reads its listed source, else the single input, else what was bound for it. */
  ghost predicate PortReads(ins: Insertion, port: string, b: Binding) {
    if exists i: nat :: LastSource(ins.sources, port, i)
    then exists i: nat :: LastSource(ins.sources, port, i) && b == Bound(ins.sources[i].1, None)
    else if ins.input.Some? && ins.input.value.2 == port
    then b == Bound(StageOutput(ins.input.value.0, ins.input.value.1), None)
    else port in ins.bindings && b == ins.bindings[port]
  }

  lemma {:induction false} SourceBindingsAre(sources: seq<(string, Source)>, port: string)
    ensures port in SourceBindings(sources) <==> exists i: nat :: LastSource(sources, port, i)
    ensures forall i: nat | LastSource(sources, port, i) ::
              port in SourceBindings(sources) && SourceBindings(sources)[port] == Bound(sources[i].1, None)
  {
    if sources != [] {
      var front, last := sources[..|sources| - 1], sources[|sources| - 1];
      SourceBindingsAre(front, port);
      if last.0 == port {
        assert LastSource(sources, port, |front|);
      } else {
        forall i: nat ensures LastSource(sources, port, i) <==> LastSource(front, port, i) {
          assert i < |front| ==> front[i] == sources[i];
          assert LastSource(front, port, i) ==> forall j | i < j < |sources| :: j == |front| || front[j] == sources[j];
          assert LastSource(sources, port, i) ==> forall j | i < j < |front| :: front[j] == sources[j];
        }
      }
    }
  }

  /** Which ports the inserted stage binds, and to what. */
  lemma BindingsAre(ins: Insertion, port: string)
    ensures port in BindingsOf(ins) <==> exists b :: PortReads(ins, port, b)
    ensures port in BindingsOf(ins) ==> PortReads(ins, port, BindingsOf(ins)[port])
  {
    SourceBindingsAre(ins.sources, port);
    if port in BindingsOf(ins) { assert PortReads(ins, port, BindingsOf(ins)[port]); }
  }

  /**
   The stage an insertion puts in: a call or a step of the given reference,
   whose routes are exactly the declared ones, an error route for calls only,
   and whose ports read what was declared for them.
   */
  lemma InsertedStageIs(stages: map<string, GraphStage>, ins: Insertion, ref: Ref)
    requires Plan(stages, ins).Ok?
    ensures var id := StageIdOf(ins);
            && (ins.stageId != "" ==> id == ins.stageId)
            && (ins.stageId == "" && (ins.call != "" || ins.composed) ==> id == ins.id)
            && (ins.stageId == "" && ins.call == "" && !ins.composed ==> id == ins.step)
    ensures var after := Spliced(stages, ins, ref, Plan(stages, ins).value);
            StageIdOf(ins) in after
            && var stage := after[StageIdOf(ins)];
               && stage.ref == ref && (stage.kind == "call" <==> ins.call != "") && stage.kind in {"call", "step"}
               && (forall v :: OnVerdict(v) in stage.routes <==> v in ins.on)
               && (forall v | v in ins.on :: stage.routes[OnVerdict(v)] == ins.on[v])
               && (OnError in stage.routes <==> ins.call != "" && ins.onError != "")
               && (OnError in stage.routes ==> stage.routes[OnError] == ins.onError)
               && (forall r | r in stage.routes :: r.OnVerdict? || r == OnError)
               && (forall port :: port in stage.inputs <==> exists b :: PortReads(ins, port, b))
               && (forall port | port in stage.inputs :: PortReads(ins, port, stage.inputs[port]))
               && stage.impossible == if ins.call != "" then [] else ins.impossible
  {
    hide Plan, BindingsOf, PortReads, VerdictRoutes;
    PlannedEdgeExists(stages, ins);
    forall r ensures (r in VerdictRoutes(ins.on) <==> r.OnVerdict? && r.name in ins.on)
      && (r in VerdictRoutes(ins.on) ==> VerdictRoutes(ins.on)[r] == ins.on[r.name]) {
      VerdictRoutesAre(ins.on, r);
    }
    forall port ensures (port in BindingsOf(ins) <==> exists b :: PortReads(ins, port, b))
      && (port in BindingsOf(ins) ==> PortReads(ins, port, BindingsOf(ins)[port])) {
      BindingsAre(ins, port);
    }
  }

  lemma PlannedEdgeExists(stages: map<string, GraphStage>, ins: Insertion)
    requires Plan(stages, ins).Ok?
    ensures ins.from in stages && ins.to in stages && StageIdOf(ins) !in stages
  {
  }

  lemma {:induction false} SourcesFit(stages: map<string, GraphStage>, composed: bool, sources: seq<(string, Source)>)
    ensures CheckSources(stages, composed, sources).Ok? <==>
              forall i | 0 <= i < |sources| ::
                match sources[i].1
                case StageOutput(stage, _) => stage in stages
                case WorkflowInput(_) => composed
                case OtherSource(_, _) => false
  {
    if sources != [] { SourcesFit(stages, composed, sources[..|sources| - 1]); }
  }

  /** Exactly this route of the stage leads to the target. */
  ghost predicate OnlyRoute(stage: GraphStage, to: string, r: Route) {
    && r in stage.routes && stage.routes[r] == to
    && forall other | other in stage.routes && stage.routes[other] == to :: other == r
  }

  /**
   An insertion is possible exactly if its stage is new, one route makes up
   its edge, and every stage it mentions exists; a workflow input is a source
   only of a composed one.
   */
  lemma PlansExactlyWhen(stages: map<string, GraphStage>, ins: Insertion)
    ensures Plan(stages, ins).Ok? <==>
              && StageIdOf(ins) !in stages && ins.from in stages && ins.to in stages
              && (exists r :: OnlyRoute(stages[ins.from], ins.to, r))
              && (forall v | v in ins.on :: ins.on[v] in stages) && (ins.onError == "" || ins.onError in stages)
              && (ins.input.Some? ==> ins.input.value.0 in stages)
              && forall i | 0 <= i < |ins.sources| ::
                   match ins.sources[i].1
                   case StageOutput(stage, _) => stage in stages
                   case WorkflowInput(_) => ins.composed
                   case OtherSource(_, _) => false
    ensures Plan(stages, ins).Ok? ==> OnlyRoute(stages[ins.from], ins.to, Plan(stages, ins).value)
  {
    SourcesFit(stages, ins.composed, ins.sources);
    if ins.from in stages { RoutesAre(stages[ins.from], ins.to); }
  }

  lemma RoutesAre(stage: GraphStage, to: string)
    ensures |RoutesTo(stage, to)| == 1 <==> exists r :: OnlyRoute(stage, to, r)
    ensures |RoutesTo(stage, to)| == 1 ==> OnlyRoute(stage, to, TheRoute(RoutesTo(stage, to)))
  {
    var routes := RoutesTo(stage, to);
    if |routes| == 1 {
      var r := TheRoute(routes);
      assert routes == {r} && r in routes;
      forall other | other in stage.routes && stage.routes[other] == to ensures other == r { assert other in routes; }
      assert OnlyRoute(stage, to, r);
    }
    if r :| OnlyRoute(stage, to, r) {
      assert routes == {r};
    }
  }

  /** The insertion is of a new stage, and exactly one route makes up its edge. */
  ghost predicate EdgeFits(stages: map<string, GraphStage>, ins: Insertion) {
    && StageIdOf(ins) !in stages && ins.from in stages && ins.to in stages
    && exists r :: OnlyRoute(stages[ins.from], ins.to, r)
  }

  ghost predicate MentionsFit(stages: map<string, GraphStage>, ins: Insertion) {
    && (forall v | v in ins.on :: ins.on[v] in stages) && (ins.onError == "" || ins.onError in stages)
    && (ins.input.Some? ==> ins.input.value.0 in stages)
  }

  /** Source `i` is the first that cannot be read. */
  ghost predicate FirstBadSource(stages: map<string, GraphStage>, ins: Insertion, i: nat) {
    i < |ins.sources| && !SourceOk(stages, ins.composed, ins.sources[i].1)
    && forall j | 0 <= j < i :: SourceOk(stages, ins.composed, ins.sources[j].1)
  }

  /** How an insertion that is not possible is refused: the first of these that applies. */
  lemma PlanRefuses(stages: map<string, GraphStage>, ins: Insertion)
    ensures StageIdOf(ins) in stages ==> Plan(stages, ins) == Refused("project_extension_stage_conflict")
    ensures StageIdOf(ins) !in stages && (ins.from !in stages || ins.to !in stages) ==>
              Plan(stages, ins) == Refused("project_extension_unknown_stage")
    ensures StageIdOf(ins) !in stages && ins.from in stages && ins.to in stages ==>
              var routes := stages[ins.from].routes;
              && ((forall r | r in routes :: routes[r] != ins.to) ==>
                    Plan(stages, ins) == Refused("project_extension_route_missing"))
              && ((exists r, q :: r in routes && q in routes && r != q && routes[r] == routes[q] == ins.to) ==>
                    Plan(stages, ins) == Refused("project_extension_route_ambiguous"))
    ensures EdgeFits(stages, ins) && !MentionsFit(stages, ins) ==>
              Plan(stages, ins) == Refused("project_extension_unknown_stage")
    ensures forall i: nat | EdgeFits(stages, ins) && MentionsFit(stages, ins) && FirstBadSource(stages, ins, i) ::
              Plan(stages, ins) == Refused(if ins.sources[i].1.StageOutput? then "project_extension_unknown_stage"
                                           else "project_extension_invalid")
  {
    hide SourceOk;
    if StageIdOf(ins) !in stages && ins.from in stages && ins.to in stages {
      RoutesAre(stages[ins.from], ins.to);
      RoutesCount(stages[ins.from], ins.to);
    }
    forall i: nat | FirstBadSource(stages, ins, i)
      ensures CheckSources(stages, ins.composed, ins.sources) == Refused(SourceRefusal(ins.sources[i].1)) {
      BadSourceRefuses(stages, ins, ins.sources, i);
    }
  }

  lemma RoutesCount(stage: GraphStage, to: string)
    ensures RoutesTo(stage, to) == {} <==> forall r | r in stage.routes :: stage.routes[r] != to
    ensures (exists r, q ::
               r in stage.routes && q in stage.routes && r != q && stage.routes[r] == stage.routes[q] == to) ==>
              |RoutesTo(stage, to)| > 1
  {
    var routes := RoutesTo(stage, to);
    if r, q :| r in stage.routes && q in stage.routes && r != q && stage.routes[r] == stage.routes[q] == to {
      assert {r, q} <= routes;
      SubsetSize({r, q}, routes);
    }
    assert forall r | r in stage.routes && stage.routes[r] == to :: r in routes;
    assert forall r | r in routes :: r in stage.routes && stage.routes[r] == to;
    assert routes != {} ==> exists r :: r in routes;
  }

  lemma {:induction false} BadSourceRefuses(stages: map<string, GraphStage>, ins: Insertion,
                                            sources: seq<(string, Source)>, i: nat)
    requires i < |sources| && !SourceOk(stages, ins.composed, sources[i].1)
    requires forall j | 0 <= j < i :: SourceOk(stages, ins.composed, sources[j].1)
    ensures CheckSources(stages, ins.composed, sources) == Refused(SourceRefusal(sources[i].1))
  {
    var front := sources[..|sources| - 1];
    if i < |front| {
      BadSourceRefuses(stages, ins, front, i);
    } else {
      SourcesPass(stages, ins.composed, front);
    }
  }

  lemma {:induction false} SourcesPass(stages: map<string, GraphStage>, composed: bool, sources: seq<(string, Source)>)
    requires forall j | 0 <= j < |sources| :: SourceOk(stages, composed, sources[j].1)
    ensures CheckSources(stages, composed, sources) == Ok(())
  {
    if sources != [] { SourcesPass(stages, composed, sources[..|sources| - 1]); }
  }

  /** A further insertion on an edge out of a stage just inserted: the edge is found by the verdict declared for it. */
  lemma EdgeOutOfInserted(stages: map<string, GraphStage>, a: Insertion, b: Insertion, ref: Ref, v: string)
    requires Plan(stages, a).Ok? && b.from == StageIdOf(a)
    requires v in a.on && a.on[v] == b.to && (forall w | w in a.on && a.on[w] == b.to :: w == v)
    requires a.call == "" || a.onError == "" || a.onError != b.to
    ensures var after := Spliced(stages, a, ref, Plan(stages, a).value);
            OnlyRoute(after[b.from], b.to, OnVerdict(v))
            && (StageIdOf(b) !in after && CheckMentions(after, b).Ok? ==> Plan(after, b) == Ok(OnVerdict(v)))
  {
    hide CheckMentions;
    var after := Spliced(stages, a, ref, Plan(stages, a).value);
    InsertedStageIs(stages, a, ref);
    PlansExactlyWhen(stages, a);
    assert OnlyRoute(after[b.from], b.to, OnVerdict(v));
    RoutesAre(after[b.from], b.to);
    assert b.to in stages;
  }

  /** The revision an insertion of a step with impossible verdicts leaves, and the verdicts it may name. */
  lemma RevisionsAre(current: string, v: string)
    ensures Raised(current) == if current in {"", "1", "2", "3"} then "4" else current
    ensures v in VerdictsRequiredBy(current) <==>
              v in {"pass", "fail", "needs_revision", "no_work"} || (v == "blocked" && current in {"6", "7", "8"})
  {
    RevisionAt(current);
    RevisionAt("4");
    RevisionAt("6");
  }

  lemma RevisionAt(r: string)
    ensures IndexIn(KNOWN_REVISIONS, r) == match r
            case "1" => 0
            case "2" => 1
            case "3" => 2
            case "4" => 3
            case "5" => 4
            case "6" => 5
            case "7" => 6
            case "8" => 7
            case _ => -1
  {
    if i :| 0 <= i < 8 && r == KNOWN_REVISIONS[i] {
      IndexIs(KNOWN_REVISIONS, r, i);
    }
    assert r !in KNOWN_REVISIONS ==> forall i | 0 <= i < 8 :: r != KNOWN_REVISIONS[i];
  }

  lemma {:induction false} IndexIs(list: seq<string>, x: string, i: nat)
    requires i < |list| && list[i] == x && Distinct(list)
    ensures IndexIn(list, x) == i
  {
    if i < |list| - 1 { IndexIs(list[..|list| - 1], x, i); }
  }
}
