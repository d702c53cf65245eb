/** What conditions and choices come to, as tables: comparisons, the connectives, and the two selection rules. */
module Conditions {
  import opened Prelude
  import opened Flow

  /** Null, truth values, numbers and texts can be compared; lists and objects cannot. */
  ghost predicate Comparable(value: Json) {
    value == JNull || value.JBool? || value.JInt? || value.JString?
  }

  ghost predicate Alike(a: Json, b: Json) {
    match (a, b)
    case (JNull, JNull) => true
    case (JBool(_), JBool(_)) => true
    case (JInt(_), JInt(_)) => true
    case (JString(_), JString(_)) => true
    case _ => false
  }

  /**
   A comparison of present values of one kind is true or false; of values of
   different kinds, or with a list or object, it is an error; else, with a
   value missing, it is unknown.
   */
  lemma CompareIs(equal: bool, left: Option<Json>, right: Option<Json>)
    ensures var t := EvalCompare(equal, left, right);
            var bad := (left.Some? && !Comparable(left.value)) || (right.Some? && !Comparable(right.value));
            && (t == Mismatch <==> bad || (left.Some? && right.Some? && !Alike(left.value, right.value)))
            && (t == Unknown <==> !bad && (left.None? || right.None?))
            && (t == True ==> (left == right <==> equal)) && (t == False ==> (left == right <==> !equal))
  {
  }

  /** The connectives over three truths; an error in any argument, or no argument, is an error. */
  lemma ConnectivesAre(rt: Runtime, scope: Scope, args: seq<Predicate>, arg: Predicate)
    ensures var ts, all, any := EvalEach(rt, scope, args), Eval(rt, scope, All(args)), Eval(rt, scope, Any(args));
            && (all == Mismatch <==> args == [] || Mismatch in ts)
            && (any == Mismatch <==> args == [] || Mismatch in ts)
            && (all == True <==> args != [] && forall i | 0 <= i < |ts| :: ts[i] == True)
            && (any == False <==> args != [] && forall i | 0 <= i < |ts| :: ts[i] == False)
            && (all == False <==> Mismatch !in ts && False in ts) && (any == True <==> Mismatch !in ts && True in ts)
    ensures var t, negated := Eval(rt, scope, arg), Eval(rt, scope, Not(arg));
            && (negated == True <==> t == False) && (negated == False <==> t == True)
            && (negated == Unknown <==> t == Unknown)
  {
    var ts := EvalEach(rt, scope, args);
    if ts != [] { assert ts[0] in ts; }
    forall i | 0 <= i < |ts| ensures ts[i] in ts { }
  }

  lemma {:induction false} EachIs(rt: Runtime, scope: Scope, ps: seq<Predicate>, i: nat)
    requires i < |ps|
    ensures EvalEach(rt, scope, ps)[i] == Eval(rt, scope, ps[i])
  {
    if i < |ps| - 1 { EachIs(rt, scope, ps[..|ps| - 1], i); }
  }

  /** The first truth that is not false. */
  ghost predicate FirstOpen(ts: seq<Truth>, i: nat) {
    i < |ts| && ts[i] != False && forall j | 0 <= j < i :: ts[j] == False
  }

  lemma {:induction false} LookedIs(selection: string, ts: seq<Truth>)
    ensures selection != "first_match" ==> Looked(selection, ts) == |ts|
    ensures selection == "first_match" && (forall j | 0 <= j < |ts| :: ts[j] == False) ==> Looked(selection, ts) == |ts|
    ensures selection == "first_match" ==> forall i: nat | FirstOpen(ts, i) :: Looked(selection, ts) == i + 1
  {
    if ts != [] {
      LookedIs(selection, ts[1..]);
      forall i: nat | FirstOpen(ts, i) && i > 0 ensures FirstOpen(ts[1..], i - 1) { }
    }
  }

  ghost predicate NoneHolds(ts: seq<Truth>) {
    forall j | 0 <= j < |ts| :: ts[j] != True
  }

  ghost predicate OnlyHolds(ts: seq<Truth>, i: nat) {
    i < |ts| && ts[i] == True && forall j | 0 <= j < |ts| && j != i :: ts[j] != True
  }

  ghost predicate TwoHold(ts: seq<Truth>) {
    exists i, j :: 0 <= i < j < |ts| && ts[i] == True && ts[j] == True
  }

  lemma {:induction false} MatchesAre(ts: seq<Truth>)
    ensures Matches(ts) == [] <==> NoneHolds(ts)
    ensures |Matches(ts)| > 1 <==> TwoHold(ts)
    ensures forall i: nat | OnlyHolds(ts, i) :: Matches(ts) == [i]
    ensures |Matches(ts)| == 1 ==> OnlyHolds(ts, Matches(ts)[0])
  {
    if ts != [] {
      var front, n := ts[..|ts| - 1], |ts| - 1;
      MatchesAre(front);
      if ts[n] == True {
        if !NoneHolds(front) {
          var i :| 0 <= i < n && front[i] == True;
          assert ts[i] == True && ts[n] == True;
        }
        assert forall i: nat | OnlyHolds(ts, i) && i < n :: ts[n] != True;
      } else {
        assert forall j | 0 <= j < n :: ts[j] == front[j];
        forall i: nat ensures OnlyHolds(ts, i) <==> OnlyHolds(front, i) { }
      }
    }
  }

  /** `first_match` goes by the first condition that is not false, and takes the default if there is none. */
  lemma FirstMatchIs(ts: seq<Truth>)
    ensures forall i: nat | FirstOpen(ts, i) ::
              Select("first_match", ts)
              == match ts[i]
                 case True => Branch(i)
                 case Unknown => OnUnknown
                 case _ => ChoiceFailed
    ensures (forall j | 0 <= j < |ts| :: ts[j] == False) ==> Select("first_match", ts) == Default
  {
    hide Looked, Matches;
    LookedIs("first_match", ts);
    if i: nat :| FirstOpen(ts, i) {
      var seen := ts[..i + 1];
      assert seen[i] == ts[i] && forall j | 0 <= j < i :: seen[j] == False;
      MatchesAre(seen);
      assert OnlyHolds(seen, i) <==> ts[i] == True;
    } else if forall j | 0 <= j < |ts| :: ts[j] == False {
      assert ts[..|ts|] == ts;
      MatchesAre(ts);
    }
  }

  /**
   `exclusive` weighs all conditions: an error or two that hold fail it, then
   an unknown one decides, then the one that holds, and else the default.
   */
  lemma ExclusiveIs(ts: seq<Truth>)
    ensures var selected := Select("exclusive", ts);
            && (selected == ChoiceFailed <==> Mismatch in ts || TwoHold(ts))
            && (selected == OnUnknown <==> Mismatch !in ts && !TwoHold(ts) && Unknown in ts)
            && (forall i: nat :: selected == Branch(i) <==> Mismatch !in ts && Unknown !in ts && OnlyHolds(ts, i))
            && (selected == Default <==> forall j | 0 <= j < |ts| :: ts[j] == False)
  {
    hide Looked, Matches, TwoHold;
    LookedIs("exclusive", ts);
    assert ts[..|ts|] == ts;
    MatchesAre(ts);
    forall j | 0 <= j < |ts| ensures ts[j] in ts { }
  }
}
