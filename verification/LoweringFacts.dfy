/**
 What the compiler's parts come to, told by the fields they read: names,
 targets and their routes, sources in scope, lifted keys and identities.
 */
module LoweringFacts {
  import opened Prelude
  import opened Flow
  import opened Extensions
  import opened Lowering

  // ----- Names and targets -------------------------------------------------------------------

  /** What stands after the last slash, or all of it if there is none. */
  ghost predicate IsShortName(id: string, name: string) {
    && |name| <= |id| && id[|id| - |name|..] == name && '/' !in name
    && (|name| < |id| ==> id[|id| - |name| - 1] == '/')
  }

  lemma ShortNameIs(id: string)
    ensures IsShortName(id, ShortName(id)) && forall name | IsShortName(id, name) :: name == ShortName(id)
  {
    ShortNameFits(id);
    forall name | IsShortName(id, name) ensures name == ShortName(id) { OneShortName(id, name, ShortName(id)); }
  }

  lemma {:induction false} ShortNameFits(id: string)
    ensures IsShortName(id, ShortName(id))
  {
    hide IsShortName;
    if id == [] || id[|id| - 1] == '/' {
      NothingAfterSlash(id);
    } else {
      ShortNameFits(id[..|id| - 1]);
      LongerName(id[..|id| - 1], ShortName(id[..|id| - 1]), id[|id| - 1]);
      assert id == id[..|id| - 1] + [id[|id| - 1]];
    }
  }

  lemma NothingAfterSlash(id: string)
    requires id == [] || id[|id| - 1] == '/'
    ensures IsShortName(id, "")
  {
  }

  lemma LongerName(id: string, name: string, last: char)
    requires IsShortName(id, name) && last != '/'
    ensures IsShortName(id + [last], name + [last])
  {
    var more := id + [last];
    assert more[|more| - |name| - 1..] == id[|id| - |name|..] + [last];
  }

  lemma OneShortName(id: string, a: string, b: string)
    requires IsShortName(id, a) && IsShortName(id, b)
    ensures a == b
  {
    LongerHasSlash(id, a, b);
    LongerHasSlash(id, b, a);
  }

  lemma LongerHasSlash(id: string, short: string, tail: string)
    requires IsShortName(id, short) && |tail| <= |id| && id[|id| - |tail|..] == tail
    ensures |short| < |tail| ==> '/' in tail
  {
    if |short| < |tail| {
      assert tail[|tail| - |short| - 1] == id[|id| - |short| - 1];
    }
  }

  /** An unnamed component goes by its short name, another by its name or any of its further names. */
  ghost predicate HasName(component: Component, name: string) {
    if component.name == "" then IsShortName(component.ref.id, name)
    else component.name == name || exists i :: 0 <= i < |component.names| && component.names[i] == name
  }

  /** A workflow of the name called, or a step of the name given. */
  ghost predicate IsTarget(component: Component, leaf: Extension)
    requires leaf.Leaf?
  {
    if leaf.call != "" then component.kind == "workflow" && HasName(component, leaf.call)
    else component.kind == "step" && HasName(component, leaf.step)
  }

  lemma TargetIs(component: Component, leaf: Extension)
    requires leaf.Leaf?
    ensures TargetOf(component, leaf) <==> IsTarget(component, leaf)
  {
    hide IsShortName, ShortName;
    ShortNameIs(component.ref.id);
  }

  /** Component `t` is the only target. */
  ghost predicate OneTarget(components: seq<Component>, leaf: Extension, t: nat)
    requires leaf.Leaf?
  {
    && t < |components| && IsTarget(components[t], leaf)
    && forall j | 0 <= j < |components| && j != t :: !IsTarget(components[j], leaf)
  }

  /** Component `t` is the first target. */
  ghost predicate FirstTarget(components: seq<Component>, leaf: Extension, t: nat)
    requires leaf.Leaf?
  {
    t < |components| && IsTarget(components[t], leaf) && forall j | 0 <= j < t :: !IsTarget(components[j], leaf)
  }

  lemma {:induction false} TargetsAre(components: seq<Component>, leaf: Extension)
    requires leaf.Leaf?
    ensures Targets(components, leaf) == [] <==> forall j | 0 <= j < |components| :: !IsTarget(components[j], leaf)
    ensures forall t: nat | FirstTarget(components, leaf, t) ::
              Targets(components, leaf) != [] && Targets(components, leaf)[0] == components[t]
    ensures |Targets(components, leaf)| == 1 <==> exists t: nat :: OneTarget(components, leaf, t)
  {
    hide IsTarget, TargetOf;
    if components != [] {
      var front, last := components[..|components| - 1], components[|components| - 1];
      TargetsAre(front, leaf);
      TargetIs(last, leaf);
      forall t: nat | t < |front| ensures FirstTarget(components, leaf, t) <==> FirstTarget(front, leaf, t)
      { assert forall j | 0 <= j <= t :: front[j] == components[j]; }
      assert forall j | 0 <= j < |front| :: front[j] == components[j];
      if IsTarget(last, leaf) {
        if Targets(front, leaf) == [] { assert OneTarget(components, leaf, |front|); }
      } else {
        forall t: nat ensures OneTarget(components, leaf, t) <==> OneTarget(front, leaf, t) { }
      }
    }
  }

  /** A call routes every outcome of its target. */
  ghost predicate Routed(leaf: Extension, target: Component)
    requires leaf.Leaf?
  {
    leaf.call != "" ==> forall o | o in target.doc.outcomes :: o in leaf.head.on
  }

  /** Inside its wrapper a leaf leads to `done` for the one good result that leads on, for every other to `rejected`. */
  ghost predicate RoutesAre(leaf: Extension, target: Component, on: map<string, string>)
    requires leaf.Leaf?
  {
    var good := if leaf.call != "" then "succeeded" else "pass";
    && (forall o :: o in on <==> if leaf.call != "" then o in target.doc.outcomes else o in leaf.head.on)
    && (forall o | o in on :: o in leaf.head.on && on[o] in {"done", "rejected"})
    && forall o | o in on :: on[o] == "done" <==> o == good && leaf.head.on[o] == leaf.head.to
  }

  lemma LeafRoutesAre(leaf: Extension, target: Component)
    requires leaf.Leaf?
    ensures LeafRoutes(leaf, target).Ok? <==> Routed(leaf, target)
    ensures Routed(leaf, target) ==> RoutesAre(leaf, target, LeafRoutes(leaf, target).value)
    ensures !Routed(leaf, target) ==> LeafRoutes(leaf, target) == Refused("project_extension_call_outcome_unmapped")
  {
    assert "done" != "rejected" by { assert |"done"| != |"rejected"|; }
  }

  /**
   A leaf finds its target exactly if one component is it and all outcomes
   are routed. Without any it is refused as unknown, with an outcome of the
   first not routed as unmapped, else with several as ambiguous.
   */
  lemma TargetFoundExactlyWhen(components: seq<Component>, leaf: Extension)
    requires leaf.Leaf?
    ensures FindTarget(components, leaf).Ok? <==>
              exists t: nat :: OneTarget(components, leaf, t) && Routed(leaf, components[t])
    ensures forall t: nat | OneTarget(components, leaf, t) && Routed(leaf, components[t]) ::
              && FindTarget(components, leaf).Ok? && FindTarget(components, leaf).value.0 == components[t]
              && RoutesAre(leaf, components[t], FindTarget(components, leaf).value.1)
    ensures (forall j | 0 <= j < |components| :: !IsTarget(components[j], leaf)) ==>
              FindTarget(components, leaf) == Refused("project_composition_unknown_component")
    ensures forall t: nat | FirstTarget(components, leaf, t) && !Routed(leaf, components[t]) ::
              FindTarget(components, leaf) == Refused("project_extension_call_outcome_unmapped")
    ensures forall t: nat | FirstTarget(components, leaf, t) && Routed(leaf, components[t])
                            && !OneTarget(components, leaf, t) ::
              FindTarget(components, leaf) == Refused("project_composition_ambiguous_component")
  {
    hide Routed, RoutesAre, LeafRoutes, IsTarget, Targets;
    TargetsAre(components, leaf);
    var found := Targets(components, leaf);
    forall t: nat | OneTarget(components, leaf, t) ensures FirstTarget(components, leaf, t) { }
    if found != [] { LeafRoutesAre(leaf, found[0]); }
  }

  // ----- Sources -----------------------------------------------------------------------------

  /** Component `i` is a component behind the stage and declares the output. */
  ghost predicate Declares(components: seq<Component>, stage: RootStage, port: string, i: nat) {
    && i < |components| && components[i].ref == stage.ref && port in components[i].doc.outputs
    && (stage.kind == "step" || stage.kind == "call")
  }

  /** The binding reads an input of the root, or an output that a component behind a stage of the root declares. */
  ghost predicate Readable(inputs: map<string, Port>, stages: map<string, RootStage>, components: seq<Component>,
                           b: Binding) {
    && b.Bound? && (b.projection.Some? ==> b.projection.value.schema.Some?)
    && match b.source
       case WorkflowInput(port) => port in inputs
       case StageOutput(stage, port) =>
         stage in stages && exists i: nat :: Declares(components, stages[stage], port, i)
       case OtherSource(_, _) => false
  }

  lemma {:induction false} OutputFound(components: seq<Component>, stage: RootStage, port: string)
    ensures FindOutput(components, stage, port).Some? <==> exists i: nat :: Declares(components, stage, port, i)
    ensures FindOutput(components, stage, port).Some? ==>
              exists i: nat :: Declares(components, stage, port, i)
                               && FindOutput(components, stage, port).value == components[i].doc.outputs[port]
  {
    if components != [] {
      var n := |components| - 1;
      var front := components[..n];
      OutputFound(front, stage, port);
      assert forall i: nat :: Declares(components, stage, port, i) <==>
                                Declares(front, stage, port, i) || (i == n && Declares(components, stage, port, n));
      if Declares(components, stage, port, n) {
        assert FindOutput(components, stage, port).value == components[n].doc.outputs[port];
      } else if FindOutput(front, stage, port).Some? {
        var i: nat :| Declares(front, stage, port, i)
          && FindOutput(front, stage, port).value == front[i].doc.outputs[port];
        assert Declares(components, stage, port, i) && components[i] == front[i];
      }
    }
  }

  lemma ReadableIs(c: Compiler, components: seq<Component>, b: Binding)
    requires b.Bound?
    ensures SourcePort(c, components, b.source).Ok? && (b.projection.Some? ==> b.projection.value.schema.Some?)
       <==> Readable(c.root.inputs, c.root.stages, components, b)
  {
    if b.source.StageOutput? && b.source.stage in c.root.stages {
      OutputFound(components, c.root.stages[b.source.stage], b.source.port);
    }
  }

  /** The input a binding is lifted to: required, with the format of its source and its schema or the projected one. */
  ghost predicate TypedAs(c: Compiler, components: seq<Component>, b: Binding, input: InputPort) {
    && b.Bound? && input.required
    && (b.projection.Some? ==> input.port.schema == b.projection.value.schema)
    && exists port: Port :: PortOf(c, components, b.source, port) && input.port.format == port.format
                            && (b.projection.None? ==> input.port.schema == port.schema)
  }

  ghost predicate PortOf(c: Compiler, components: seq<Component>, source: Source, port: Port) {
    match source
    case WorkflowInput(name) => name in c.root.inputs && port == c.root.inputs[name]
    case StageOutput(stage, name) =>
      stage in c.root.stages
      && exists i: nat :: Declares(components, c.root.stages[stage], name, i) && port == components[i].doc.outputs[name]
    case OtherSource(_, _) => false
  }

  lemma SourcePortIs(c: Compiler, components: seq<Component>, source: Source)
    ensures SourcePort(c, components, source).Ok? ==>
              PortOf(c, components, source, SourcePort(c, components, source).value)
    ensures SourcePort(c, components, source).Refused? ==>
              SourcePort(c, components, source) == Refused("project_composition_binding_scope")
  {
    if source.StageOutput? && source.stage in c.root.stages {
      OutputFound(components, c.root.stages[source.stage], source.port);
    }
  }

  /** An input is lifted under its name, an output under its stage and name; a projection adds its fingerprint. */
  ghost predicate KeyIs(c: Compiler, b: Binding, key: string) {
    && b.Bound?
    && var tail := if b.projection.Some? then (c.fingerprint)(b) else "";
       match b.source
       case WorkflowInput(port) => key == port + tail
       case StageOutput(stage, port) => key == "stage_" + stage + "_" + port + tail
       case OtherSource(_, _) => true
  }

  lemma LiftKeyIs(c: Compiler, b: Binding)
    requires b.Bound?
    ensures KeyIs(c, b, LiftKey(c, b))
  {
  }

  /** Lifting one binding types it and names it as its source says, and is refused for its scope or a taken key. */
  lemma LiftedAs(c: Compiler, st: State, b: Binding)
    ensures b.Bound? ==>
              (Lift(c, st, b).Ok? <==>
                && Readable(c.root.inputs, c.root.stages, st.components, b)
                && (LiftKey(c, b) in st.external ==> st.external[LiftKey(c, b)] == b))
    ensures b.Bound? && Lift(c, st, b).Ok? ==>
              && var key, st1 := LiftKey(c, b), Lift(c, st, b).value.1;
                 && KeyIs(c, b, key) && key in st1.ports && TypedAs(c, st.components, b, st1.ports[key])
                 && st1 == State(st.external[key := b], st.ports[key := st1.ports[key]], st.components)
    ensures Lift(c, st, b).Refused? ==> Lift(c, st, b) == Refused("project_composition_binding_scope")
  {
    if b.Bound? {
      ReadableIs(c, st.components, b);
      SourcePortIs(c, st.components, b.source);
      LiftKeyIs(c, b);
    }
  }

  // ----- Identities ---------------------------------------------------------------------------

  /** What stands before the first colon, or all of it if there is none. */
  ghost predicate IsNamespace(id: string, name: string) {
    name <= id && ':' !in name && (name == id || id[|name|] == ':')
  }

  lemma {:induction false} NamespaceIs(id: string)
    ensures IsNamespace(id, Namespace(id)) && forall name | IsNamespace(id, name) :: name == Namespace(id)
  {
    if id != [] && id[0] != ':' {
      NamespaceIs(id[1..]);
      assert id == [id[0]] + id[1..];
      forall name | IsNamespace(id, name) ensures name == Namespace(id) {
        assert name != [] && name == [id[0]] + name[1..];
        assert IsNamespace(id[1..], name[1..]);
      }
    }
  }

  /**
   A generated identity: the root's namespace, ":workflow/", and as much of
   the contribution's hash as 128 characters leave room for; refused if they
   leave less than 32.
   */
  lemma WrapperIdIs(c: Compiler, ext: Extension, namespace: string)
    requires IsNamespace(c.root.id, namespace)
    ensures WrapperId(c, ext).Ok? <==> |namespace| + 10 + 32 <= 128
    ensures WrapperId(c, ext).Refused? ==> WrapperId(c, ext) == Refused("project_composition_limit")
    ensures WrapperId(c, ext).Ok? ==>
              && var id, hash := WrapperId(c, ext).value, (c.identity)(ext);
                 && |id| <= 128 && namespace + ":workflow/" <= id && id[|namespace| + 10..] <= hash
                 && (|id| < 128 ==> id == namespace + ":workflow/" + hash)
  {
    NamespaceIs(c.root.id);
    assert |":workflow/"| == 10;
  }
}
