/**
 The declarations the arranger reads, told by their JSON: what a group may look
 like, which members it then has, and how a declaration that does not fit is refused.
 */
module GroupDeclarations {
  import opened Prelude
  import opened Flow
  import opened Extensions
  import opened Arrangement

  // ----- Groups ----------------------------------------------------------------------------------

  /** Of the three operators the object has just this one. */
  ghost predicate OneOperator(fields: map<string, Json>, operator: string) {
    && operator in fields
    && forall other | other in {"sequence", "parallel", "choice"} && other != operator :: other !in fields
  }

  /** One operator with its members, below the depth limit. */
  ghost predicate IsGroup(fields: map<string, Json>, depth: nat)
    decreases 8 - depth, 2
  {
    && depth < 8
    && (|| (OneOperator(fields, "sequence") && IsList(fields["sequence"], depth))
        || (OneOperator(fields, "parallel") && IsList(fields["parallel"], depth))
        || (OneOperator(fields, "choice") && IsChoice(fields["choice"], depth)))
  }

  ghost predicate IsList(raw: Json, depth: nat)
    requires depth < 8
    decreases 8 - depth, 1
  {
    raw.JArray? && 1 <= |raw.items| <= 32 && forall i | 0 <= i < |raw.items| :: IsMember(raw.items[i], depth)
  }

  /** A choice states its selection rule, its branches, its default, and that an unknown condition rejects. */
  ghost predicate IsChoice(raw: Json, depth: nat)
    requires depth < 8
    decreases 8 - depth, 1
  {
    && raw.JObject? && raw.fields.Keys == {"selection", "branches", "default", "on_unknown"}
    && raw.fields["selection"] in {JString("first_match"), JString("exclusive")}
    && raw.fields["on_unknown"] == JString("rejected")
    && var branches := raw.fields["branches"];
       && branches.JArray? && 1 <= |branches.items| <= 32
       && (forall i | 0 <= i < |branches.items| :: IsBranch(branches.items[i]))
       && (forall i | 0 <= i < |branches.items| :: IsMember(branches.items[i].fields["use"], depth))
       && IsMember(raw.fields["default"], depth)
  }

  ghost predicate IsBranch(raw: Json) {
    && raw.JObject? && raw.fields.Keys == {"predicate", "use"}
    && raw.fields["predicate"] != JNull && raw.fields["use"] != JNull
  }

  /** A member is a selector, or a group with nothing but its operator. */
  ghost predicate IsMember(raw: Json, depth: nat)
    requires depth < 8
    decreases 8 - depth, 0
  {
    || raw.JString?
    || (raw.JObject? && raw.fields.Keys <= {"sequence", "parallel", "choice"} && IsGroup(raw.fields, depth + 1))
  }

  lemma OperatorIs(fields: map<string, Json>)
    ensures Operator(fields) == Some(SequenceOf) <==> OneOperator(fields, "sequence")
    ensures Operator(fields) == Some(ParallelOf) <==> OneOperator(fields, "parallel")
    ensures Operator(fields) == Some(ChoiceOf) <==> OneOperator(fields, "choice")
  {
    assert "sequence" != "parallel" && "sequence" != "choice" && "parallel" != "choice" by {
      assert "sequence"[0] == 's' && "parallel"[0] == 'p' && "choice"[0] == 'c';
    }
  }

  lemma BranchIs(raw: Json)
    ensures BranchShape(raw) <==> IsBranch(raw)
  {
    assert "predicate" != "use" by { assert |"predicate"| != |"use"|; }
    if raw.JObject? && "predicate" in raw.fields && "use" in raw.fields && |raw.fields| == 2 {
      assert {"predicate", "use"} <= raw.fields.Keys && |raw.fields.Keys| == 2;
      SubsetOfSameSize({"predicate", "use"}, raw.fields.Keys);
    }
    if raw.JObject? && raw.fields.Keys == {"predicate", "use"} { assert |raw.fields| == |raw.fields.Keys| == 2; }
  }

  lemma {:induction false} BranchUsesAre(branches: seq<Json>, i: nat)
    requires i < |branches| && IsBranch(branches[i])
    ensures BranchUses(branches)[i] == branches[i].fields["use"]
  {
    if i < |branches| - 1 { BranchUsesAre(branches[..|branches| - 1], i); }
  }

  lemma {:induction false} ConditionsAre(condition: Json -> Predicate, branches: seq<Json>, i: nat)
    requires i < |branches| && IsBranch(branches[i])
    ensures Conditions(condition, branches)[i] == condition(branches[i].fields["predicate"])
  {
    if i < |branches| - 1 { ConditionsAre(condition, branches[..|branches| - 1], i); }
  }

  /** What can be read as a group is exactly what the declaration language allows. */
  lemma {:induction false} GroupShapeIs(fields: map<string, Json>, depth: nat)
    requires depth <= 8
    ensures Shaped(fields, depth) <==> IsGroup(fields, depth)
    decreases 8 - depth, 2
  {
    hide ChoiceShape, IsMember, ShapedMember;
    OperatorIs(fields);
    if depth < 8 {
      match Operator(fields)
      case None =>
      case Some(SequenceOf) => ListShapeIs(fields["sequence"], depth);
      case Some(ParallelOf) => ListShapeIs(fields["parallel"], depth);
      case Some(ChoiceOf) => ChoiceShapeIs(fields["choice"], depth);
    }
  }

  lemma {:induction false} ListShapeIs(raw: Json, depth: nat)
    requires depth < 8
    ensures ListShape(raw) && (forall item | item in raw.items :: ShapedMember(item, depth)) <==> IsList(raw, depth)
    decreases 8 - depth, 1
  {
    hide IsMember, ShapedMember;
    if raw.JArray? {
      forall i | 0 <= i < |raw.items| ensures ShapedMember(raw.items[i], depth) <==> IsMember(raw.items[i], depth) {
        MemberShapeIs(raw.items[i], depth);
      }
      assert forall i | 0 <= i < |raw.items| :: raw.items[i] in raw.items;
    }
  }

  lemma {:induction false} MemberShapeIs(raw: Json, depth: nat)
    requires depth < 8
    ensures ShapedMember(raw, depth) <==> IsMember(raw, depth)
    decreases 8 - depth, 0
  {
    if raw.JObject? { GroupShapeIs(raw.fields, depth + 1); }
  }

  lemma {:induction false} ChoiceShapeIs(raw: Json, depth: nat)
    requires depth < 8
    ensures && raw.JObject? && ChoiceShape(raw.fields) && BranchesShaped(raw.fields["branches"].items)
            && (forall use | use in ChoiceUses(raw.fields) :: ShapedMember(use, depth))
       <==> IsChoice(raw, depth)
    decreases 8 - depth, 1
  {
    hide IsMember, ShapedMember, IsBranch, BranchShape;
    forall item ensures BranchShape(item) <==> IsBranch(item) { BranchIs(item); }
    if raw.JObject? && ChoiceShape(raw.fields) {
      var branches := raw.fields["branches"].items;
      var default := if "default" in raw.fields then raw.fields["default"] else JNull;
      MemberShapeIs(default, depth);
      NullIsNoMember(depth);
      assert raw.fields.Keys == {"selection", "branches", "default", "on_unknown"} <==> "default" in raw.fields;
      forall i | 0 <= i < |branches| && IsBranch(branches[i])
        ensures IsUse(branches[i])
        ensures ShapedMember(BranchUses(branches)[i], depth) <==> IsMember(branches[i].fields["use"], depth)
      {
        BranchHasUse(branches[i]);
        BranchUsesAre(branches, i);
        MemberShapeIs(branches[i].fields["use"], depth);
      }
      EachUse(BranchUses(branches), default, depth);
    } else if raw.JObject? && IsChoice(raw, depth) {
      ChoiceFits(raw, depth);
    }
  }

  ghost predicate IsUse(raw: Json) {
    raw.JObject? && "use" in raw.fields
  }

  lemma BranchHasUse(raw: Json)
    requires IsBranch(raw)
    ensures IsUse(raw)
  {
  }

  lemma NullIsNoMember(depth: nat)
    requires depth < 8
    ensures !IsMember(JNull, depth)
  {
  }

  lemma ChoiceFits(raw: Json, depth: nat)
    requires depth < 8 && IsChoice(raw, depth)
    ensures ChoiceShape(raw.fields)
  {
  }

  lemma EachUse(uses: seq<Json>, default: Json, depth: nat)
    requires depth < 8
    ensures (forall use | use in uses + [default] :: ShapedMember(use, depth))
       <==> (forall i | 0 <= i < |uses| :: ShapedMember(uses[i], depth)) && ShapedMember(default, depth)
  {
    hide ShapedMember;
    if forall use | use in uses + [default] :: ShapedMember(use, depth) {
      assert default in uses + [default];
      forall i | 0 <= i < |uses| ensures ShapedMember(uses[i], depth) { assert uses[i] in uses + [default]; }
    }
  }

  // ----- What is read ----------------------------------------------------------------------------

  /**
   The members of a group that was read are those declared, in order. A
   choice has one for each branch, under the branch's condition, and its
   default last; its selection rule is the one stated.
   */
  lemma ReadAsDeclared(r: Reader, fields: map<string, Json>, group: Extension, depth: nat)
    requires depth < 8 && Declares(r, fields, group, depth)
    ensures group.Group? && group.head == Head("", "", "", "", "", "", map[], "")
    ensures group.kind == SequenceOf <==> OneOperator(fields, "sequence")
    ensures group.kind == ParallelOf <==> OneOperator(fields, "parallel")
    ensures group.kind == ChoiceOf <==> OneOperator(fields, "choice")
    ensures group.kind == SequenceOf ==>
              fields["sequence"].JArray? && MembersAre(r, fields["sequence"].items, group.members, depth)
    ensures group.kind == ParallelOf ==>
              fields["parallel"].JArray? && MembersAre(r, fields["parallel"].items, group.members, depth)
    ensures group.kind == ChoiceOf ==>
              && fields["choice"].JObject? && ChoiceShape(fields["choice"].fields)
              && var choice, n := fields["choice"].fields, |fields["choice"].fields["branches"].items|;
                 && choice["selection"] == JString(group.selection) && group.default == n
                 && |group.members| == n + 1 && |group.predicates| == n
                 && (forall i | 0 <= i < n :: BranchRead(r, choice["branches"].items[i], group, i, depth))
                 && "default" in choice && MemberIs(r, choice["default"], group.members[n], depth)
  {
    hide MemberIs;
    OperatorIs(fields);
    if group.kind == ChoiceOf {
      var choice := fields["choice"].fields;
      var branches := choice["branches"].items;
      forall i | 0 <= i < |branches| ensures BranchRead(r, branches[i], group, i, depth) {
        assert branches[i] in branches;
        BranchIs(branches[i]);
        BranchUsesAre(branches, i);
        ConditionsAre(r.condition, branches, i);
        assert Uses(fields)[i] == BranchUses(branches)[i];
      }
      NoNullMember(r, group.members[|branches|], depth);
      assert Uses(fields)[|branches|] == if "default" in choice then choice["default"] else JNull;
    }
  }

  ghost predicate BranchRead(r: Reader, branch: Json, group: Extension, i: nat, depth: nat)
    requires depth < 8
  {
    && group.Group? && i < |group.members| && i < |group.predicates| && IsBranch(branch)
    && MemberIs(r, branch.fields["use"], group.members[i], depth)
    && group.predicates[i] == (r.condition)(branch.fields["predicate"])
  }

  lemma NoNullMember(r: Reader, member: Extension, depth: nat)
    requires depth < 8
    ensures !MemberIs(r, JNull, member, depth)
  {
  }

  // ----- Declarations -----------------------------------------------------------------------------

  /** A declaration with this identity, edge and rejection route. */
  ghost predicate IsDeclaration(n: Composition, raw: Json, id: string, from: string, to: string, rejected: string) {
    && raw.JObject? && raw.fields.Keys <= {"id", "between", "sequence", "parallel", "choice", "on", "on_error"}
    && {"id", "between", "on"} <= raw.fields.Keys
    && raw.fields["id"] == JString(id) && (n.validName)(id)
    && raw.fields["between"] == JObject(map["from" := JString(from), "to" := JString(to)]) && from != "" && to != ""
    && raw.fields["on"] == JObject(map["succeeded" := JString(to), "rejected" := JString(rejected)])
    && rejected != "" && rejected != to
    && IsGroup(raw.fields, 0)
  }

  lemma TwoTexts(fields: map<string, Json>, a: string, b: string)
    requires a != b && |fields| == 2 && TextAt(fields, a) != "" && TextAt(fields, b) != ""
    ensures fields == map[a := JString(TextAt(fields, a)), b := JString(TextAt(fields, b))]
  {
    assert {a, b} <= fields.Keys && |fields.Keys| == 2;
    SubsetOfSameSize({a, b}, fields.Keys);
  }

  lemma PairHasTwo(a: string, x: string, b: string, y: string)
    requires a != b
    ensures var fields := map[a := JString(x), b := JString(y)];
            |fields| == 2 && TextAt(fields, a) == x && TextAt(fields, b) == y
  {
    var fields := map[a := JString(x), b := JString(y)];
    assert |fields| == |fields.Keys| && fields.Keys == {a, b};
  }

  /** A declaration has the right shape exactly if it states an identity, an edge, a group and its two routes. */
  lemma DeclarationIs(n: Composition, raw: Json)
    ensures DeclarationShaped(n, raw)
       <==> exists id, from, to, rejected :: IsDeclaration(n, raw, id, from, to, rejected)
  {
    hide Shaped, IsGroup;
    assert "from" != "to" && "succeeded" != "rejected" by {
      assert |"from"| != |"to"| && |"succeeded"| != |"rejected"|;
    }
    if raw.JObject? { GroupShapeIs(raw.fields, 0); }
    if DeclarationShaped(n, raw) {
      var between, on := ObjectAt(raw.fields, "between").value, ObjectAt(raw.fields, "on").value;
      TwoTexts(between, "from", "to");
      TwoTexts(on, "succeeded", "rejected");
      var id, rejected := TextAt(raw.fields, "id"), TextAt(on, "rejected");
      var from, to := TextAt(between, "from"), TextAt(between, "to");
      assert IsDeclaration(n, raw, id, from, to, rejected);
    }
    if id, from, to, rejected :| IsDeclaration(n, raw, id, from, to, rejected) {
      PairHasTwo("from", from, "to", to);
      PairHasTwo("succeeded", to, "rejected", rejected);
    }
  }

  /**
   The head of a group that was read: named and attached as declared, leading
   on when it succeeds and elsewhere when it is rejected, also on an error
   unless another route is stated for that.
   */
  lemma HeadAsDeclared(n: Composition, contributions: map<string, Extension>, raw: Json, group: Extension, id: string,
                       from: string, to: string, rejected: string)
    requires DeclaredAs(n, contributions, raw, group) && IsDeclaration(n, raw, id, from, to, rejected)
    ensures var h := group.head;
            && h.id == id && h.from == from && h.to == to && h.on == map["succeeded" := to, "rejected" := rejected]
            && h.workflow == n.rootName && h.selector == n.name + "." + id
            && h.source == n.rootSource + "#arrange/" + id
            && (forall other | "on_error" in raw.fields && raw.fields["on_error"] == JString(other) && other != "" ::
                  h.onError == other)
            && ((forall other | "on_error" in raw.fields && raw.fields["on_error"] == JString(other) :: other == "") ==>
                  h.onError == rejected)
  {
    hide IsGroup, Shaped, Declares, Mentions;
    assert "from" != "to" && "succeeded" != "rejected" by {
      assert |"from"| != |"to"| && |"succeeded"| != |"rejected"|;
    }
    PairHasTwo("from", from, "to", to);
    PairHasTwo("succeeded", to, "rejected", rejected);
  }

  // ----- Refusals -----------------------------------------------------------------------------------

  /** How a selector that cannot be taken is refused. */
  lemma SelectorRefused(r: Reader, selector: string, used: seq<string>, depth: nat)
    requires depth < 8
    ensures var read, known := ReadMember(r, JString(selector), used, depth), selector in r.contributions;
            && (!known ==> read == Refused("project_composition_unknown_contribution"))
            && (known && selector in used ==> read == Refused("project_composition_duplicate_contribution"))
            && (known && selector !in used
                && (r.contributions[selector].head.from != r.from || r.contributions[selector].head.to != r.to) ==>
                  read == Refused("project_composition_attachment_conflict"))
  {
  }

  /** A group below the limit of depth, and one without exactly one operator, are refused before any member is read. */
  lemma GroupRefused(r: Reader, fields: map<string, Json>, used: seq<string>, depth: nat)
    requires depth <= 8
    ensures depth == 8 ==> ReadGroup(r, fields, used, depth) == Refused("project_composition_limit")
    ensures depth < 8 && !OneOperator(fields, "sequence") && !OneOperator(fields, "parallel")
            && !OneOperator(fields, "choice") ==>
              ReadGroup(r, fields, used, depth) == Refused("project_composition_invalid_group")
  {
    OperatorIs(fields);
  }

  /** A list of members out of its bounds, a choice of another shape, and a member of another kind are invalid. */
  lemma MalformedRefused(r: Reader, raw: Json, kind: Kind, used: seq<string>, depth: nat)
    requires depth < 8
    ensures !raw.JArray? || |raw.items| == 0 || |raw.items| > 32 ==>
              ReadList(r, kind, raw, used, depth) == Refused("project_composition_invalid_group")
    ensures !raw.JObject? || !ChoiceShape(raw.fields) ==>
              ReadChoice(r, raw, used, depth) == Refused("project_composition_invalid_group")
    ensures !raw.JString? && (!raw.JObject? || !(raw.fields.Keys <= {"sequence", "parallel", "choice"})) ==>
              ReadMember(r, raw, used, depth) == Refused("project_composition_invalid_group")
    ensures !IsBranch(raw) ==> ReadBranches(r, [raw], used, depth) == Refused("project_composition_invalid_group")
  {
    BranchIs(raw);
    assert [raw][..0] == [];
  }

  /** A group nested too deep, and a leaf of a source seen before, are refused by the last check of the members. */
  lemma MemberRefusedFor(member: Extension, depth: nat, origins: set<string>)
    ensures member.Group? && depth >= 8 ==>
              ValidateMember(member, depth, origins) == Refused("project_composition_limit")
    ensures member.Leaf? && member.head.source != "" && member.head.source in origins ==>
              ValidateMember(member, depth, origins) == Refused("project_composition_duplicate_contribution")
    ensures member.Leaf? && (member.head.source == "" || member.head.source !in origins) ==>
              ValidateMember(member, depth, origins).Ok?
  {
  }

  /** A declaration that is no object, has another field, or states no valid identity is invalid. */
  lemma DeclarationRefused(n: Composition, contributions: map<string, Extension>, raw: Json, ids: set<string>,
                           used: seq<string>)
    ensures !raw.JObject? || !(raw.fields.Keys <= {"id", "between", "sequence", "parallel", "choice", "on", "on_error"})
            || "id" !in raw.fields || !raw.fields["id"].JString? || !(n.validName)(raw.fields["id"].text) ==>
              ReadDeclaration(n, contributions, raw, ids, used) == Refused("project_composition_invalid_group")
  {
  }

  /** A declaration that states an identity is refused for that only if it is taken. */
  lemma TakenIdRefused(n: Composition, contributions: map<string, Extension>, raw: Json, ids: set<string>,
                       used: seq<string>, id: string)
    requires raw.JObject? && raw.fields.Keys <= {"id", "between", "sequence", "parallel", "choice", "on", "on_error"}
    requires "id" in raw.fields && raw.fields["id"] == JString(id) && (n.validName)(id) && id in ids
    ensures ReadDeclaration(n, contributions, raw, ids, used) == Refused("project_extension_stage_conflict")
  {
  }

  /** Two contributions on one edge need an arrangement; two of one stage identity are in conflict. */
  lemma PlaceRefusedFor(front: seq<Extension>, last: Extension)
    requires PlaceRefusal(front).None? && Arrangement.Selected(front)
    ensures (exists e :: e in front && e.head.from == last.head.from && e.head.to == last.head.to) ==>
              PlaceRefusal(front + [last]) == Some("project_composition_arrange_required")
    ensures (forall e | e in front :: Edge(e) != Edge(last))
            && (exists e :: e in front && e.head.id == last.head.id) ==>
              PlaceRefusal(front + [last]) == Some("project_extension_stage_conflict")
  {
    hide Taken, Edges, Ids;
    assert (front + [last])[..|front|] == front;
    TakenWhen(Edges(front), front, Edge(last));
    TakenWhen(Ids(front), front, last.head.id);
    if e :| e in front && e.head.from == last.head.from && e.head.to == last.head.to {
      var i :| 0 <= i < |front| && front[i] == e;
      assert Edges(front)[i] == Edge(last);
    }
    if e :| e in front && e.head.id == last.head.id {
      var i :| 0 <= i < |front| && front[i] == e;
      assert Ids(front)[i] == last.head.id;
    }
  }

  /** An edge is its two ends, told apart wherever no stage is named with an arrow. */
  lemma EdgesAre(a: Extension, b: Extension)
    requires '>' !in a.head.from + a.head.to + b.head.from + b.head.to
    ensures Edge(a) == Edge(b) <==> a.head.from == b.head.from && a.head.to == b.head.to
  {
    if Edge(a) == Edge(b) {
      var n, m := |a.head.from|, |b.head.from|;
      assert Edge(a)[n + 2] == '>' && Edge(b)[m + 2] == '>';
      assert Edge(a)[..n] == a.head.from && Edge(a)[n + 4..] == a.head.to;
      assert Edge(b)[..m] == b.head.from && Edge(b)[m + 4..] == b.head.to;
      OneArrow(a, m + 2);
    }
  }

  lemma OneArrow(e: Extension, k: nat)
    requires k < |Edge(e)| && Edge(e)[k] == '>'
    ensures k == |e.head.from| + 2 || '>' in e.head.from + e.head.to
  {
    var names := e.head.from + e.head.to;
    if k < |e.head.from| {
      assert names[k] == '>';
    } else if k >= |e.head.from| + 4 {
      assert names[k - 4] == '>';
    }
  }
}
