/**
 What a composed contribution means, told without wrappers: leaves read the
 root's scope directly, a sequence stops at its first member that does not
 succeed, a parallel group waits for all members, a choice runs one member.
 */
module Meaning {
  import opened Prelude
  import opened Flow
  import opened Extensions
  import opened Lowering

  /** Where a contribution runs: the root's data, the runtime, and the components its author wrote. */
  datatype World = World(rt: Runtime, scope: Scope, invoke: Invocation, authored: seq<Component>)

  const SUCCEEDED := Completed("succeeded")
  const REJECTED := Completed("rejected")

  /** The binding each port of a leaf ends up with: the last one written for it. */
  function LeafInputs(bs: seq<(string, Binding)>): map<string, Binding> {
    if bs == [] then map[]
    else LeafInputs(bs[..|bs| - 1])[bs[|bs| - 1].0 := bs[|bs| - 1].1]
  }

  function LeafOutcome(leaf: Extension, target: Component, outcome: Outcome): Outcome
    requires leaf.Leaf?
  {
    if outcome.Failed? then Failed
    else if leaf.call != "" then
      if outcome.name !in target.doc.outcomes then Failed
      else if outcome == SUCCEEDED && outcome.name in leaf.head.on && leaf.head.on[outcome.name] == leaf.head.to
        then SUCCEEDED
      else REJECTED
    else if outcome.name !in leaf.head.on then Failed
    else if outcome.name == "pass" && leaf.head.on["pass"] == leaf.head.to then SUCCEEDED
    else REJECTED
  }

  function LeafMeaning(w: World, leaf: Extension, path: seq<string>): Run
    requires leaf.Leaf?
  {
    var found := Targets(w.authored, leaf);
    var args := FetchAll(w.rt, w.scope, LeafInputs(leaf.bindings));
    if found == [] || args.None? then Run(Failed, [])
    else
      var r := (w.invoke)(found[0].ref, args.value, path + ["run"]);
      Run(LeafOutcome(leaf, found[0], r.outcome), r.events)
  }

  function ParallelOutcome(runs: seq<Run>): Outcome {
    if exists i | 0 <= i < |runs| :: runs[i].outcome == Failed then Failed
    else if forall i | 0 <= i < |runs| :: runs[i].outcome == SUCCEEDED then SUCCEEDED
    else REJECTED
  }

  function MeaningOf(w: World, ext: Extension, path: seq<string>): Run
    requires WellFormed(ext)
    decreases ext, 1, 0
  {
    match ext
    case Leaf(_, _, _, _, _) => LeafMeaning(w, ext, path)
    case Group(_, kind, members, selection, predicates, default) =>
      match kind
      case SequenceOf => MeaningFrom(w, members, 0, path)
      case ParallelOf =>
        var runs := MeaningOfEach(w, members, path + ["run"]);
        Run(ParallelOutcome(runs), [Together(Histories(runs))])
      case ChoiceOf =>
        match Select(selection, EvalEach(w.rt, w.scope, predicates))
        case Branch(i) => if i < |members| then MeaningOf(w, members[i], path + [Member(i)]) else Run(Failed, [])
        case Default => MeaningOf(w, members[default], path + [Member(default)])
        case OnUnknown => Run(REJECTED, [])
        case ChoiceFailed => Run(Failed, [])
  }

  function MeaningFrom(w: World, members: seq<Extension>, i: nat, path: seq<string>): Run
    requires i <= |members|
    requires forall m | m in members :: WellFormed(m)
    decreases members, 0, |members| - i
  {
    if i == |members| then Run(SUCCEEDED, [])
    else
      var r := MeaningOf(w, members[i], path + [Member(i)]);
      if r.outcome == SUCCEEDED then After(r.events, MeaningFrom(w, members, i + 1, path)) else r
  }

  function MeaningOfEach(w: World, members: seq<Extension>, path: seq<string>): (rs: seq<Run>)
    requires forall m | m in members :: WellFormed(m)
    ensures |rs| == |members|
    decreases members, 0, 0
  {
    if members == [] then []
    else MeaningOfEach(w, members[..|members| - 1], path)
         + [MeaningOf(w, members[|members| - 1], path + [Member(|members| - 1)])]
  }

  /** Every result is one of three: succeeded, rejected, or a technical failure. */
  lemma {:induction false} ThreeOutcomes(w: World, ext: Extension, path: seq<string>)
    requires WellFormed(ext)
    ensures MeaningOf(w, ext, path).outcome in {SUCCEEDED, REJECTED, Failed}
    decreases ext, 1, 0
  {
    if ext.Group? {
      if ext.kind == SequenceOf {
        ThreeOutcomesFrom(w, ext.members, 0, path);
      } else if ext.kind == ChoiceOf {
        match Select(ext.selection, EvalEach(w.rt, w.scope, ext.predicates))
        case Branch(i) => if i < |ext.members| { ThreeOutcomes(w, ext.members[i], path + [Member(i)]); }
        case Default => ThreeOutcomes(w, ext.members[ext.default], path + [Member(ext.default)]);
        case _ =>
      }
    }
  }

  lemma {:induction false} ThreeOutcomesFrom(w: World, members: seq<Extension>, i: nat, path: seq<string>)
    requires i <= |members|
    requires forall m | m in members :: WellFormed(m)
    ensures MeaningFrom(w, members, i, path).outcome in {SUCCEEDED, REJECTED, Failed}
    decreases members, 0, |members| - i
  {
    if i < |members| {
      ThreeOutcomes(w, members[i], path + [Member(i)]);
      ThreeOutcomesFrom(w, members, i + 1, path);
    }
  }

  lemma {:induction false} MeaningOfEachAt(w: World, members: seq<Extension>, path: seq<string>, i: nat)
    requires i < |members|
    requires forall m | m in members :: WellFormed(m)
    ensures MeaningOfEach(w, members, path)[i] == MeaningOf(w, members[i], path + [Member(i)])
  {
    if i < |members| - 1 {
      MeaningOfEachAt(w, members[..|members| - 1], path, i);
    }
  }
}
