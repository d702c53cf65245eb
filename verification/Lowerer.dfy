/**
 The lowerer as it runs: one object per group that collects lifted inputs and
 appends wrapper components in place. Every method does what its function says.
 */
module LowererObject {
  import opened Prelude
  import opened Flow
  import opened Extensions
  import opened Lowering
  import opened LoweringProof

  /** The outcome a method owes its specification: its value and the whole new state, or the same refusal. */
  ghost predicate Does<T>(spec: Result<(T, State)>, r: Result<T>, now: State) {
    match spec
    case Ok((value, st)) => r == Ok(value) && now == st
    case Refused(code) => r == Refused(code)
  }

  lemma {:induction false} BindingsRefused(c: Compiler, st: State, bs: seq<(string, Binding)>, i: nat)
    requires i <= |bs| && LiftBindings(c, st, bs[..i]).Refused?
    ensures LiftBindings(c, st, bs) == Refused(LiftBindings(c, st, bs[..i]).code)
  {
    if i < |bs| {
      assert bs[..|bs| - 1][..i] == bs[..i];
      BindingsRefused(c, st, bs[..|bs| - 1], i);
    } else {
      assert bs[..i] == bs;
    }
  }

  lemma {:induction false} PredicatesRefused(c: Compiler, st: State, ps: seq<Predicate>, i: nat)
    requires i <= |ps| && LiftPredicates(c, st, ps[..i]).Refused?
    ensures LiftPredicates(c, st, ps) == Refused(LiftPredicates(c, st, ps[..i]).code)
  {
    if i < |ps| {
      assert ps[..|ps| - 1][..i] == ps[..i];
      PredicatesRefused(c, st, ps[..|ps| - 1], i);
    } else {
      assert ps[..i] == ps;
    }
  }

  lemma {:induction false} MembersRefused(c: Compiler, st: State, members: seq<Extension>, i: nat)
    requires i <= |members| && LowerMembers(c, st, members[..i]).Refused?
    ensures LowerMembers(c, st, members) == Refused(LowerMembers(c, st, members[..i]).code)
  {
    if i < |members| {
      assert members[..|members| - 1][..i] == members[..i];
      MembersRefused(c, st, members[..|members| - 1], i);
    } else {
      assert members[..i] == members;
    }
  }

  lemma ChildBindingsGrow(components: seq<Component>, i: nat, ref: Ref, offered: map<string, Binding>)
    requires i < |components|
    ensures ChildBindings(components[..i + 1], ref, offered) ==
            ChildBindings(components[..i], ref, offered)
            + if components[i].ref == ref then map port | port in components[i].doc.inputs
              && port in offered :: offered[port] else map[]
  {
    var before, after := components[..i], components[..i + 1];
    assert after[i] == components[i];
    forall port | port in ChildBindings(before, ref, offered) ensures port in ChildBindings(after, ref, offered) {
      var j :| 0 <= j < i && before[j].ref == ref && port in before[j].doc.inputs;
      assert after[j] == before[j];
    }
    forall port | port in ChildBindings(after, ref, offered)
      ensures port in ChildBindings(before, ref, offered)
              || (components[i].ref == ref && port in components[i].doc.inputs)
    {
      var j :| 0 <= j <= i && after[j].ref == ref && port in after[j].doc.inputs;
      if j < i { assert before[j] == after[j]; }
    }
  }

  class Lowerer {
    const compiler: Compiler
    var external: map<string, Binding>
    var ports: map<string, InputPort>
    var components: seq<Component>

    constructor (compiler: Compiler, components: seq<Component>)
      ensures this.compiler == compiler && Now() == State(map[], map[], components)
    {
      this.compiler := compiler;
      this.external, this.ports, this.components := map[], map[], components;
    }

    ghost function Now(): State
      reads this
    {
      State(external, ports, components)
    }

    method LiftOne(b: Binding) returns (r: Result<Binding>)
      modifies this
      ensures Does(Lift(compiler, old(Now()), b), r, Now())
    {
      if b.Literal? {
        return Ok(b);
      }
      var found := SourcePort(compiler, components, b.source);
      if found.Refused? {
        return Refused(found.code);
      }
      var port := found.value;
      if b.projection.Some? {
        if b.projection.value.schema.None? {
          return Refused("project_composition_binding_scope");
        }
        port := port.(schema := b.projection.value.schema);
      }
      var key := LiftKey(compiler, b);
      if key in external && external[key] != b {
        return Refused("project_composition_binding_scope");
      }
      external := external[key := b];
      ports := ports[key := InputPort(port, true)];
      return Ok(Bound(WorkflowInput(key), None));
    }

    method LiftInputs(bs: seq<(string, Binding)>) returns (r: Result<map<string, Binding>>)
      modifies this
      ensures Does(LiftBindings(compiler, old(Now()), bs), r, Now())
    {
      var inputs: map<string, Binding> := map[];
      for i := 0 to |bs|
        invariant LiftBindings(compiler, old(Now()), bs[..i]) == Ok((inputs, Now()))
      {
        assert bs[..i + 1][..i] == bs[..i];
        var lifted := LiftOne(bs[i].1);
        if lifted.Refused? {
          BindingsRefused(compiler, old(Now()), bs, i + 1);
          return Refused(lifted.code);
        }
        inputs := inputs[bs[i].0 := lifted.value];
      }
      assert bs[..|bs|] == bs;
      return Ok(inputs);
    }

    method LiftFieldRef(ref: FieldRef) returns (r: Result<FieldRef>)
      modifies this
      ensures Does(LiftField(compiler, old(Now()), ref), r, Now())
    {
      if ref.source.OtherSource? {
        return Ok(ref);
      }
      var lifted := LiftOne(Bound(ref.source, None));
      if lifted.Refused? {
        return Refused(lifted.code);
      }
      return Ok(if lifted.value.Bound? then FieldRef(lifted.value.source, ref.pointer) else ref);
    }

    method LiftOperandOf(operand: Operand) returns (r: Result<Operand>)
      modifies this
      ensures Does(LiftOperand(compiler, old(Now()), operand), r, Now())
    {
      match operand
      case LiteralOperand(_) => return Ok(operand);
      case FieldOperand(ref) =>
        var lifted := LiftFieldRef(ref);
        if lifted.Refused? {
          return Refused(lifted.code);
        }
        return Ok(FieldOperand(lifted.value));
    }

    method LiftCondition(p: Predicate) returns (r: Result<Predicate>)
      modifies this
      ensures Does(LiftPredicate(compiler, old(Now()), p), r, Now())
      decreases p, 1
    {
      match p
      case Compare(equal, left, right) =>
        var l := LiftOperandOf(left);
        if l.Refused? {
          return Refused(l.code);
        }
        var m := LiftOperandOf(right);
        if m.Refused? {
          return Refused(m.code);
        }
        return Ok(Compare(equal, l.value, m.value));
      case Exists(ref) =>
        var lifted := LiftFieldRef(ref);
        if lifted.Refused? {
          return Refused(lifted.code);
        }
        return Ok(Exists(lifted.value));
      case Not(arg) =>
        var lifted := LiftCondition(arg);
        if lifted.Refused? {
          return Refused(lifted.code);
        }
        return Ok(Not(lifted.value));
      case All(args) =>
        var lifted := LiftConditions(args);
        if lifted.Refused? {
          return Refused(lifted.code);
        }
        return Ok(All(lifted.value));
      case Any(args) =>
        var lifted := LiftConditions(args);
        if lifted.Refused? {
          return Refused(lifted.code);
        }
        return Ok(Any(lifted.value));
    }

    method LiftConditions(ps: seq<Predicate>) returns (r: Result<seq<Predicate>>)
      modifies this
      ensures Does(LiftPredicates(compiler, old(Now()), ps), r, Now())
      decreases ps, 0
    {
      var lifted: seq<Predicate> := [];
      for i := 0 to |ps|
        invariant LiftPredicates(compiler, old(Now()), ps[..i]) == Ok((lifted, Now()))
      {
        assert ps[..i + 1][..i] == ps[..i];
        var one := LiftCondition(ps[i]);
        if one.Refused? {
          PredicatesRefused(compiler, old(Now()), ps, i + 1);
          return Refused(one.code);
        }
        lifted := lifted + [one.value];
      }
      assert ps[..|ps|] == ps;
      return Ok(lifted);
    }

    /** The single component a leaf names, with its routes; the search stops at a second match. */
    method Target(leaf: Extension) returns (r: Result<(Component, map<string, string>)>)
      requires leaf.Leaf?
      ensures r == FindTarget(components, leaf)
    {
      var found: Option<(Component, map<string, string>)> := None;
      for i := 0 to |components|
        invariant found.None? ==> Targets(components[..i], leaf) == []
        invariant found.Some? ==> Targets(components[..i], leaf) == [found.value.0]
        invariant found.Some? ==> LeafRoutes(leaf, found.value.0) == Ok(found.value.1)
      {
        assert components[..i + 1][..i] == components[..i];
        if TargetOf(components[i], leaf) {
          TargetsPrefix(components[..i + 1], components, leaf);
          if found.Some? {
            return Refused("project_composition_ambiguous_component");
          }
          var on := LeafRoutes(leaf, components[i]);
          if on.Refused? {
            return Refused(on.code);
          }
          found := Some((components[i], on.value));
        }
      }
      assert components[..|components|] == components;
      if found.None? {
        return Refused("project_composition_unknown_component");
      }
      return Ok(found.value);
    }

    method BindChild(ref: Ref, offered: map<string, Binding>) returns (bound: map<string, Binding>)
      ensures bound == ChildBindings(components, ref, offered)
    {
      bound := map[];
      for i := 0 to |components|
        invariant bound == ChildBindings(components[..i], ref, offered)
      {
        if components[i].ref == ref {
          bound := bound + map port | port in components[i].doc.inputs && port in offered :: offered[port];
        }
        ChildBindingsGrow(components, i, ref, offered);
      }
      assert components[..|components|] == components;
    }

    method Append(ext: Extension, entry: string, stages: map<string, Stage>) returns (r: Result<Ref>)
      modifies this
      ensures Does(Seal(compiler, old(Now()), ext, entry, stages), r, Now())
    {
      var id := WrapperId(compiler, ext);
      if id.Refused? {
        return Refused(id.code);
      }
      var doc := Wrapper(compiler, State(external, ports, components), id.value, entry, stages);
      var ref := Ref(id.value, doc.version, (compiler.digest)(doc));
      for i := 0 to |components|
        invariant forall j | 0 <= j < i :: components[j].ref != ref
      {
        if components[i].ref == ref {
          return Ok(ref);
        }
      }
      components := components + [Component("workflow", ref, "", [], doc)];
      return Ok(ref);
    }

    method LowerOne(ext: Extension) returns (r: Result<Ref>)
      modifies this
      ensures Does(Lower(compiler, old(Now()), ext), r, Now())
      decreases ext, 1
    {
      if ext.Leaf? {
        var inputs := LiftInputs(ext.bindings);
        if inputs.Refused? {
          return Refused(inputs.code);
        }
        var target := Target(ext);
        if target.Refused? {
          return Refused(target.code);
        }
        var (component, on) := target.value;
        r := Append(ext, "run", ENDINGS["run" := LeafStage(ext, component, inputs.value, on)]);
      } else {
        var wrapper := LowerGroup(ext);
        if wrapper.Refused? {
          return Refused(wrapper.code);
        }
        var (entry, stages) := wrapper.value;
        r := Append(ext, entry, stages);
      }
    }

    method LowerGroup(group: Extension) returns (r: Result<(string, map<string, Stage>)>)
      requires group.Group?
      modifies this
      ensures match GroupWrapper(compiler, old(Now()), group)
              case Ok((entry, stages, st)) => r == Ok((entry, stages)) && Now() == st
              case Refused(code) => r == Refused(code)
      decreases group, 0
    {
      var lowered := LowerAll(group.members);
      if lowered.Refused? {
        return Refused(lowered.code);
      }
      var refs, offered := lowered.value, Offered(ports);
      match group.kind {
        case SequenceOf =>
          var stages := ChainCalls(refs, offered);
          return Ok((Member(0), stages));
        case ParallelOf =>
          var branches := FanOut(refs, offered);
          return Ok(("run", ENDINGS["run" := ParallelStage(branches)]));
        case ChoiceOf =>
          var ps := LiftConditions(group.predicates);
          if ps.Refused? {
            return Refused(ps.code);
          }
          var stages := ListCalls(refs, offered);
          return Ok(("run", stages["run" := ChoiceStage(group, ps.value)]));
      }
    }

    method LowerAll(members: seq<Extension>) returns (r: Result<seq<Ref>>)
      modifies this
      ensures Does(LowerMembers(compiler, old(Now()), members), r, Now())
      decreases members, 0
    {
      var refs: seq<Ref> := [];
      for i := 0 to |members|
        invariant LowerMembers(compiler, old(Now()), members[..i]) == Ok((refs, Now()))
      {
        assert members[..i + 1][..i] == members[..i];
        var ref := LowerOne(members[i]);
        if ref.Refused? {
          MembersRefused(compiler, old(Now()), members, i + 1);
          return Refused(ref.code);
        }
        refs := refs + [ref.value];
      }
      assert members[..|members|] == members;
      return Ok(refs);
    }

    method ChainCalls(refs: seq<Ref>, offered: map<string, Binding>) returns (stages: map<string, Stage>)
      ensures stages == SequenceStages(components, offered, refs, |refs|)
    {
      stages := ENDINGS;
      for i := 0 to |refs|
        invariant stages == SequenceStages(components, offered, refs, i)
      {
        var bound := BindChild(refs[i], offered);
        stages := stages[Member(i) := Invoke("call", refs[i], bound,
                           map["succeeded" := SequenceNext(i, |refs|), "rejected" := "rejected"], [])];
      }
    }

    method ListCalls(refs: seq<Ref>, offered: map<string, Binding>) returns (stages: map<string, Stage>)
      ensures stages == ChoiceStages(components, offered, refs, |refs|)
    {
      stages := ENDINGS;
      for i := 0 to |refs|
        invariant stages == ChoiceStages(components, offered, refs, i)
      {
        var bound := BindChild(refs[i], offered);
        stages := stages[Member(i) := Invoke("call", refs[i], bound,
                           map["succeeded" := "done", "rejected" := "rejected"], [])];
      }
    }

    method FanOut(refs: seq<Ref>, offered: map<string, Binding>) returns (branches: seq<ParallelBranch>)
      ensures branches == Branches(components, offered, refs)
    {
      branches := [];
      for i := 0 to |refs|
        invariant branches == Branches(components, offered, refs[..i])
      {
        assert refs[..i + 1][..i] == refs[..i];
        var bound := BindChild(refs[i], offered);
        branches := branches + [ParallelBranch(Member(i), refs[i], bound)];
      }
      assert refs[..|refs|] == refs;
    }
  }
}
