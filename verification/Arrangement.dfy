/**
 Arranging contributions: declared groups collect contributions of one edge,
 and the arranged list keeps every contribution exactly once.
 */
module Arrangement {
  import opened Prelude
  import opened Flow
  import opened Extensions

  const NO_HEAD := Head("", "", "", "", "", "", map[], "")

  function WithHead(ext: Extension, head: Head): Extension {
    match ext
    case Leaf(_, step, call, bindings, impossible) => Leaf(head, step, call, bindings, impossible)
    case Group(_, kind, members, selection, predicates, default) =>
      Group(head, kind, members, selection, predicates, default)
  }

  const INVALID := "project_composition_invalid_group"
  const LIMIT := "project_composition_limit"
  const UNKNOWN := "project_composition_unknown_contribution"
  const DUPLICATE := "project_composition_duplicate_contribution"
  const ATTACHMENT := "project_composition_attachment_conflict"
  const STAGE_CONFLICT := "project_extension_stage_conflict"
  const ARRANGE_REQUIRED := "project_composition_arrange_required"

  const MAX_GROUP_DEPTH := 8
  const MAX_MEMBERS := 32

  /** What reading one group needs: the contributions by selector, the group's edge, and the predicate reader. */
  datatype Reader = Reader(contributions: map<string, Extension>, from: string, to: string,
                           condition: Json -> Predicate)

  // ----- Reading a declared group -------------------------------------------------------

  function Kinds(fields: map<string, Json>): seq<Kind> {
    (if "sequence" in fields then [SequenceOf] else [])
    + (if "parallel" in fields then [ParallelOf] else [])
    + (if "choice" in fields then [ChoiceOf] else [])
  }

  predicate ChoiceShape(choice: map<string, Json>) {
    && choice.Keys <= {"selection", "branches", "default", "on_unknown"}
    && "selection" in choice && (choice["selection"] == JString("first_match")
                                 || choice["selection"] == JString("exclusive"))
    && "on_unknown" in choice && choice["on_unknown"] == JString("rejected")
    && "branches" in choice && choice["branches"].JArray? && 0 < |choice["branches"].items| <= MAX_MEMBERS
  }

  predicate BranchShape(raw: Json) {
    && raw.JObject? && |raw.fields| == 2
    && "predicate" in raw.fields && !raw.fields["predicate"].JNull?
    && "use" in raw.fields && !raw.fields["use"].JNull?
  }

  /** `used` lists the selectors consumed so far, in order. */
  function ReadGroup(r: Reader, fields: map<string, Json>, used: seq<string>,
                     depth: nat): Result<(Extension, seq<string>)>
    requires depth <= MAX_GROUP_DEPTH
    decreases MAX_GROUP_DEPTH - depth, 3
  {
    var kinds := Kinds(fields);
    if depth >= MAX_GROUP_DEPTH then Refused(LIMIT)
    else if |kinds| != 1 then Refused(INVALID)
    else match kinds[0]
      case SequenceOf => ReadList(r, SequenceOf, fields["sequence"], used, depth)
      case ParallelOf => ReadList(r, ParallelOf, fields["parallel"], used, depth)
      case ChoiceOf => ReadChoice(r, fields["choice"], used, depth)
  }

  function ReadList(r: Reader, kind: Kind, raw: Json, used: seq<string>, depth: nat): Result<(Extension, seq<string>)>
    requires depth < MAX_GROUP_DEPTH
    decreases MAX_GROUP_DEPTH - depth, 2
  {
    if !raw.JArray? || raw.items == [] || |raw.items| > MAX_MEMBERS then Refused(INVALID)
    else
      var (members, used1) :- ReadMembers(r, raw.items, used, depth);
      Ok((Group(NO_HEAD, kind, members, "", [], 0), used1))
  }

  function ReadChoice(r: Reader, raw: Json, used: seq<string>, depth: nat): Result<(Extension, seq<string>)>
    requires depth < MAX_GROUP_DEPTH
    decreases MAX_GROUP_DEPTH - depth, 2
  {
    if !raw.JObject? || !ChoiceShape(raw.fields) then Refused(INVALID)
    else
      var choice := raw.fields;
      var (members, conditions, used1) :- ReadBranches(r, choice["branches"].items, used, depth);
      var (default, used2) :- ReadMember(r, if "default" in choice then choice["default"] else JNull, used1, depth);
      Ok((Group(NO_HEAD, ChoiceOf, members + [default], choice["selection"].text, conditions, |members|), used2))
  }

  function ReadMembers(r: Reader, raws: seq<Json>, used: seq<string>,
                       depth: nat): (res: Result<(seq<Extension>, seq<string>)>)
    requires depth < MAX_GROUP_DEPTH
    ensures res.Ok? ==> |res.value.0| == |raws|
    decreases MAX_GROUP_DEPTH - depth, 1, |raws|
  {
    if raws == [] then Ok(([], used))
    else
      var (front, used1) :- ReadMembers(r, raws[..|raws| - 1], used, depth);
      var (last, used2) :- ReadMember(r, raws[|raws| - 1], used1, depth);
      Ok((front + [last], used2))
  }

  function ReadBranches(r: Reader, raws: seq<Json>, used: seq<string>,
                        depth: nat): (res: Result<(seq<Extension>, seq<Predicate>, seq<string>)>)
    requires depth < MAX_GROUP_DEPTH
    ensures res.Ok? ==> |res.value.0| == |res.value.1| == |raws|
    decreases MAX_GROUP_DEPTH - depth, 1, |raws|
  {
    if raws == [] then Ok(([], [], used))
    else
      var (members, conditions, used1) :- ReadBranches(r, raws[..|raws| - 1], used, depth);
      var raw := raws[|raws| - 1];
      if !BranchShape(raw) then Refused(INVALID)
      else
        var (member, used2) :- ReadMember(r, raw.fields["use"], used1, depth);
        Ok((members + [member], conditions + [(r.condition)(raw.fields["predicate"])], used2))
  }

  /** A member names an unused contribution of the same edge, or is a nested group. */
  function ReadMember(r: Reader, raw: Json, used: seq<string>, depth: nat): Result<(Extension, seq<string>)>
    requires depth < MAX_GROUP_DEPTH
    decreases MAX_GROUP_DEPTH - depth, 0
  {
    match raw
    case JString(selector) =>
      if selector !in r.contributions then Refused(UNKNOWN)
      else if selector in used then Refused(DUPLICATE)
      else if r.contributions[selector].head.from != r.from
        || r.contributions[selector].head.to != r.to then Refused(ATTACHMENT)
      else Ok((r.contributions[selector], used + [selector]))
    case JObject(nested) =>
      if nested.Keys <= {"sequence", "parallel", "choice"} then ReadGroup(r, nested, used, depth + 1)
      else Refused(INVALID)
    case _ => Refused(INVALID)
  }

  // ----- What can be read, and as what -------------------------------------------------------

  /** The conditions of a choice's branches, and what its branches use. */
  function Conditions(condition: Json -> Predicate, branches: seq<Json>): (ps: seq<Predicate>)
    ensures |ps| == |branches|
  {
    if branches == [] then []
    else
      var last := branches[|branches| - 1];
      Conditions(condition, branches[..|branches| - 1])
      + [condition(if last.JObject? && "predicate" in last.fields then last.fields["predicate"] else JNull)]
  }

  function BranchUses(branches: seq<Json>): (raws: seq<Json>)
    ensures |raws| == |branches|
  {
    if branches == [] then []
    else
      var last := branches[|branches| - 1];
      BranchUses(branches[..|branches| - 1])
      + [if last.JObject? && "use" in last.fields then last.fields["use"] else JNull]
  }

  /** The one operator of a group, if it has just one. */
  function Operator(fields: map<string, Json>): (kind: Option<Kind>)
    ensures kind == Some(SequenceOf) ==> "sequence" in fields
    ensures kind == Some(ParallelOf) ==> "parallel" in fields
    ensures kind == Some(ChoiceOf) ==> "choice" in fields
  {
    if |Kinds(fields)| == 1 then Some(Kinds(fields)[0]) else None
  }

  predicate BranchesShaped(branches: seq<Json>) {
    forall branch | branch in branches :: BranchShape(branch)
  }

  predicate ListShape(raw: Json) {
    raw.JArray? && 0 < |raw.items| <= MAX_MEMBERS
  }

  predicate OperatorShape(fields: map<string, Json>) {
    match Operator(fields)
    case None => false
    case Some(SequenceOf) => ListShape(fields["sequence"])
    case Some(ParallelOf) => ListShape(fields["parallel"])
    case Some(ChoiceOf) =>
      && fields["choice"].JObject? && ChoiceShape(fields["choice"].fields)
      && BranchesShaped(fields["choice"].fields["branches"].items)
  }

  /** What a group declares as its members, in order; the default of a choice comes last. */
  function Uses(fields: map<string, Json>): seq<Json>
    requires OperatorShape(fields)
  {
    match Operator(fields)
    case Some(SequenceOf) => fields["sequence"].items
    case Some(ParallelOf) => fields["parallel"].items
    case Some(ChoiceOf) => ChoiceUses(fields["choice"].fields)
  }

  function ChoiceUses(choice: map<string, Json>): seq<Json>
    requires ChoiceShape(choice)
  {
    BranchUses(choice["branches"].items) + [if "default" in choice then choice["default"] else JNull]
  }

  /** One operator of the right shape, and nested groups like it, no deeper than the limit. */
  predicate Shaped(fields: map<string, Json>, depth: nat)
    requires depth <= MAX_GROUP_DEPTH
    decreases MAX_GROUP_DEPTH - depth, 1
  {
    depth < MAX_GROUP_DEPTH && OperatorShape(fields) && forall raw | raw in Uses(fields) :: ShapedMember(raw, depth)
  }

  predicate ShapedMember(raw: Json, depth: nat)
    requires depth < MAX_GROUP_DEPTH
    decreases MAX_GROUP_DEPTH - depth, 0
  {
    raw.JString? || (raw.JObject? && raw.fields.Keys <= {"sequence", "parallel", "choice"}
                     && Shaped(raw.fields, depth + 1))
  }

  /** The selectors a group names, its nested groups included, in order. */
  function Mentions(fields: map<string, Json>, depth: nat): seq<string>
    requires depth <= MAX_GROUP_DEPTH
    decreases MAX_GROUP_DEPTH - depth, 1, 0
  {
    if depth < MAX_GROUP_DEPTH && OperatorShape(fields) then AllMentions(Uses(fields), depth) else []
  }

  function AllMentions(raws: seq<Json>, depth: nat): seq<string>
    requires depth < MAX_GROUP_DEPTH
    decreases MAX_GROUP_DEPTH - depth, 0, |raws|
  {
    if raws == [] then [] else AllMentions(raws[..|raws| - 1], depth) + MemberMentions(raws[|raws| - 1], depth)
  }

  function MemberMentions(raw: Json, depth: nat): seq<string>
    requires depth < MAX_GROUP_DEPTH
    decreases MAX_GROUP_DEPTH - depth, 0, 0
  {
    match raw
    case JString(selector) => [selector]
    case JObject(nested) => Mentions(nested, depth + 1)
    case _ => []
  }

  /** Every selector names a contribution of the group's edge, not used before, and none is named twice. */
  predicate Available(r: Reader, used: seq<string>, selectors: seq<string>) {
    Distinct(selectors) && forall s | s in selectors ::
      s in r.contributions && s !in used && r.contributions[s].head.from == r.from && r.contributions[s].head.to == r.to
  }

  lemma AvailableThen(r: Reader, used: seq<string>, a: seq<string>, b: seq<string>)
    ensures Available(r, used, a + b) <==> Available(r, used, a) && Available(r, used + a, b)
  {
    if Available(r, used, a + b) {
      assert forall s | s in a :: s in a + b;
      forall i, j | 0 <= i < j < |a| ensures a[i] != a[j] { assert (a + b)[i] == a[i] && (a + b)[j] == a[j]; }
      forall i, j | 0 <= i < j < |b| ensures b[i] != b[j]
      { assert (a + b)[|a| + i] == b[i] && (a + b)[|a| + j] == b[j]; }
      forall s | s in b ensures s in a + b && s !in a {
        var j :| 0 <= j < |b| && b[j] == s;
        assert (a + b)[|a| + j] == s;
        forall i | 0 <= i < |a| ensures a[i] != s { assert (a + b)[i] == a[i]; }
      }
    }
    if Available(r, used, a) && Available(r, used + a, b) {
      assert forall s | s in a + b :: s in a || s in b;
      DistinctJoin(a, b);
    }
  }

  /**
   The group is what its declaration says: operator, members in order, and for a
   choice its rule, conditions and default.
   */
  ghost predicate Declares(r: Reader, fields: map<string, Json>, group: Extension, depth: nat)
    requires depth <= MAX_GROUP_DEPTH
    decreases MAX_GROUP_DEPTH - depth, 1
  {
    && depth < MAX_GROUP_DEPTH && OperatorShape(fields)
    && group.Group? && group.head == NO_HEAD && Operator(fields) == Some(group.kind)
    && |group.members| == |Uses(fields)|
    && (forall i | 0 <= i < |group.members| :: MemberIs(r, Uses(fields)[i], group.members[i], depth))
    && if group.kind == ChoiceOf then DecidedBy(r, fields["choice"].fields, group)
       else group.selection == "" && group.predicates == [] && group.default == 0
  }

  ghost predicate DecidedBy(r: Reader, choice: map<string, Json>, group: Extension)
    requires group.Group? && ChoiceShape(choice)
  {
    && group.selection == choice["selection"].text
    && group.predicates == Conditions(r.condition, choice["branches"].items)
    && group.default == |choice["branches"].items|
  }

  ghost predicate MemberIs(r: Reader, raw: Json, member: Extension, depth: nat)
    requires depth < MAX_GROUP_DEPTH
    decreases MAX_GROUP_DEPTH - depth, 0
  {
    match raw
    case JString(selector) => selector in r.contributions && member == r.contributions[selector]
    case JObject(nested) => Declares(r, nested, member, depth + 1)
    case _ => false
  }

  ghost predicate MembersAre(r: Reader, raws: seq<Json>, members: seq<Extension>, depth: nat)
    requires depth < MAX_GROUP_DEPTH
  {
    |members| == |raws| && forall i | 0 <= i < |members| :: MemberIs(r, raws[i], members[i], depth)
  }

  predicate AllShaped(raws: seq<Json>, depth: nat)
    requires depth < MAX_GROUP_DEPTH
  {
    forall raw | raw in raws :: ShapedMember(raw, depth)
  }

  lemma OneMoreShaped(front: seq<Json>, last: Json, depth: nat)
    requires depth < MAX_GROUP_DEPTH
    ensures AllShaped(front + [last], depth) <==> AllShaped(front, depth) && ShapedMember(last, depth)
  {
    hide ShapedMember;
    if AllShaped(front + [last], depth) {
      assert last in front + [last];
      assert forall raw | raw in front :: raw in front + [last];
    }
  }

  lemma OneMoreMention(front: seq<Json>, last: Json, depth: nat)
    requires depth < MAX_GROUP_DEPTH
    ensures AllMentions(front + [last], depth) == AllMentions(front, depth) + MemberMentions(last, depth)
  {
    hide MemberMentions;
    assert (front + [last])[..|front|] == front;
  }

  /** One more member: its shape, the selectors it names, and whether they are available after those before it. */
  lemma OneMoreUse(r: Reader, front: seq<Json>, last: Json, used: seq<string>, depth: nat)
    requires depth < MAX_GROUP_DEPTH
    ensures AllShaped(front + [last], depth) <==> AllShaped(front, depth) && ShapedMember(last, depth)
    ensures var a, b := AllMentions(front, depth), MemberMentions(last, depth);
            && AllMentions(front + [last], depth) == a + b && used + a + b == used + (a + b)
            && (Available(r, used, a + b) <==> Available(r, used, a) && Available(r, used + a, b))
  {
    hide ShapedMember, Available, MemberMentions, AllMentions, AllShaped;
    OneMoreShaped(front, last, depth);
    OneMoreMention(front, last, depth);
    AvailableThen(r, used, AllMentions(front, depth), MemberMentions(last, depth));
  }

  lemma NoUses(r: Reader, used: seq<string>, depth: nat)
    requires depth < MAX_GROUP_DEPTH
    ensures AllShaped([], depth) && AllMentions([], depth) == [] && Available(r, used, [])
            && MembersAre(r, [], [], depth)
    ensures used + [] == used
  {
  }

  lemma OneMoreMember(r: Reader, front: seq<Json>, last: Json, members: seq<Extension>, member: Extension, depth: nat)
    requires depth < MAX_GROUP_DEPTH && MembersAre(r, front, members, depth) && MemberIs(r, last, member, depth)
    ensures MembersAre(r, front + [last], members + [member], depth)
  {
    hide MemberIs;
  }

  /**
   A group can be read exactly if its declaration has the right shape and
   every contribution it names is known, attached to the same edge, not used
   before and named once. Reading uses just those, and gives what is declared.
   */
  lemma {:induction false} ReadsExactlyWhen(r: Reader, fields: map<string, Json>, used: seq<string>, depth: nat)
    requires depth <= MAX_GROUP_DEPTH
    ensures ReadGroup(r, fields, used, depth).Ok?
       <==> Shaped(fields, depth) && Available(r, used, Mentions(fields, depth))
    ensures ReadGroup(r, fields, used, depth).Ok? ==>
              var (group, used1) := ReadGroup(r, fields, used, depth).value;
              used1 == used + Mentions(fields, depth) && Declares(r, fields, group, depth)
    decreases MAX_GROUP_DEPTH - depth, 3
  {
    hide Available, ShapedMember, MemberIs, AllMentions;
    var kinds := Kinds(fields);
    if depth < MAX_GROUP_DEPTH && |kinds| == 1 {
      match kinds[0]
      case SequenceOf => if ListShape(fields["sequence"]) { MembersRead(r, fields["sequence"].items, used, depth); }
      case ParallelOf => if ListShape(fields["parallel"]) { MembersRead(r, fields["parallel"].items, used, depth); }
      case ChoiceOf =>
        if fields["choice"].JObject? && ChoiceShape(fields["choice"].fields) {
          ChoiceReads(r, fields["choice"].fields, used, depth);
        }
    }
  }

  lemma {:induction false} ChoiceReads(r: Reader, choice: map<string, Json>, used: seq<string>, depth: nat)
    requires depth < MAX_GROUP_DEPTH && ChoiceShape(choice)
    ensures ReadChoice(r, JObject(choice), used, depth).Ok? <==>
              && BranchesShaped(choice["branches"].items)
              && AllShaped(ChoiceUses(choice), depth) && Available(r, used, AllMentions(ChoiceUses(choice), depth))
    ensures ReadChoice(r, JObject(choice), used, depth).Ok? ==>
              var (group, used1) := ReadChoice(r, JObject(choice), used, depth).value;
              && used1 == used + AllMentions(ChoiceUses(choice), depth)
              && group.Group? && group.head == NO_HEAD && group.kind == ChoiceOf
              && MembersAre(r, ChoiceUses(choice), group.members, depth) && DecidedBy(r, choice, group)
    decreases MAX_GROUP_DEPTH - depth, 2
  {
    hide Available, AllShaped, ShapedMember, MemberIs, MembersAre, AllMentions, MemberMentions;
    var branches := choice["branches"].items;
    var front, last := BranchUses(branches), if "default" in choice then choice["default"] else JNull;
    BranchesRead(r, branches, used, depth);
    OneMoreUse(r, front, last, used, depth);
    MemberReads(r, last, used + AllMentions(front, depth), depth);
    if ReadChoice(r, JObject(choice), used, depth).Ok? {
      var (members, _, used1) := ReadBranches(r, branches, used, depth).value;
      OneMoreMember(r, front, last, members, ReadMember(r, last, used1, depth).value.0, depth);
    }
  }

  lemma OneMoreBranch(r: Reader, branches: seq<Json>)
    requires branches != []
    ensures var front, raw := branches[..|branches| - 1], branches[|branches| - 1];
            && (BranchesShaped(branches) <==> BranchesShaped(front) && BranchShape(raw))
            && BranchUses(branches) == BranchUses(front) + [BranchUses(branches)[|branches| - 1]]
            && (BranchShape(raw) ==>
                  && BranchUses(branches)[|branches| - 1] == raw.fields["use"]
                  && Conditions(r.condition, branches)
                     == Conditions(r.condition, front) + [(r.condition)(raw.fields["predicate"])])
  {
    var front, raw := branches[..|branches| - 1], branches[|branches| - 1];
    assert branches == front + [raw];
    assert forall branch | branch in front :: branch in branches;
  }

  lemma {:induction false} BranchesRead(r: Reader, branches: seq<Json>, used: seq<string>, depth: nat)
    requires depth < MAX_GROUP_DEPTH
    ensures ReadBranches(r, branches, used, depth).Ok? <==>
              && BranchesShaped(branches)
              && AllShaped(BranchUses(branches), depth) && Available(r, used, AllMentions(BranchUses(branches), depth))
    ensures ReadBranches(r, branches, used, depth).Ok? ==>
              var (members, conditions, used1) := ReadBranches(r, branches, used, depth).value;
              && used1 == used + AllMentions(BranchUses(branches), depth)
              && MembersAre(r, BranchUses(branches), members, depth) && conditions == Conditions(r.condition, branches)
    decreases MAX_GROUP_DEPTH - depth, 1, |branches|
  {
    hide Available, AllShaped, ShapedMember, MemberIs, MembersAre, AllMentions, MemberMentions;
    if branches == [] {
      NoUses(r, used, depth);
    } else {
      hide BranchUses, Conditions, BranchesShaped;
      var front, last := branches[..|branches| - 1], BranchUses(branches)[|branches| - 1];
      var uses := BranchUses(front);
      BranchesRead(r, front, used, depth);
      OneMoreBranch(r, branches);
      OneMoreUse(r, uses, last, used, depth);
      MemberReads(r, last, used + AllMentions(uses, depth), depth);
      if ReadBranches(r, branches, used, depth).Ok? {
        var (members, _, used1) := ReadBranches(r, front, used, depth).value;
        OneMoreMember(r, uses, last, members, ReadMember(r, last, used1, depth).value.0, depth);
      }
    }
  }

  lemma {:induction false} MembersRead(r: Reader, raws: seq<Json>, used: seq<string>, depth: nat)
    requires depth < MAX_GROUP_DEPTH
    ensures ReadMembers(r, raws, used, depth).Ok?
       <==> AllShaped(raws, depth) && Available(r, used, AllMentions(raws, depth))
    ensures ReadMembers(r, raws, used, depth).Ok? ==>
              var (members, used1) := ReadMembers(r, raws, used, depth).value;
              used1 == used + AllMentions(raws, depth) && MembersAre(r, raws, members, depth)
    decreases MAX_GROUP_DEPTH - depth, 1, |raws|
  {
    hide Available, AllShaped, ShapedMember, MemberIs, MembersAre, AllMentions, MemberMentions;
    if raws == [] {
      NoUses(r, used, depth);
    } else {
      var front, last := raws[..|raws| - 1], raws[|raws| - 1];
      MembersRead(r, front, used, depth);
      assert raws == front + [last];
      OneMoreUse(r, front, last, used, depth);
      MemberReads(r, last, used + AllMentions(front, depth), depth);
      if ReadMembers(r, raws, used, depth).Ok? {
        var (members, used1) := ReadMembers(r, front, used, depth).value;
        OneMoreMember(r, front, last, members, ReadMember(r, last, used1, depth).value.0, depth);
      }
    }
  }

  lemma {:induction false} MemberReads(r: Reader, raw: Json, used: seq<string>, depth: nat)
    requires depth < MAX_GROUP_DEPTH
    ensures ReadMember(r, raw, used, depth).Ok?
       <==> ShapedMember(raw, depth) && Available(r, used, MemberMentions(raw, depth))
    ensures ReadMember(r, raw, used, depth).Ok? ==>
              var (member, used1) := ReadMember(r, raw, used, depth).value;
              used1 == used + MemberMentions(raw, depth) && MemberIs(r, raw, member, depth)
    decreases MAX_GROUP_DEPTH - depth, 0
  {
    if raw.JObject? {
      ReadsExactlyWhen(r, raw.fields, used, depth + 1);
    } else if raw.JString? {
      assert raw.text in [raw.text];
    }
  }

  // ----- Leaves -----------------------------------------------------------------------------

  function Leaves(ext: Extension): seq<Extension>
    decreases ext, 1
  {
    match ext
    case Leaf(_, _, _, _, _) => [ext]
    case Group(_, _, members, _, _, _) => LeavesOf(members)
  }

  function LeavesOf(exts: seq<Extension>): seq<Extension>
    decreases exts, 0
  {
    if exts == [] then [] else LeavesOf(exts[..|exts| - 1]) + Leaves(exts[|exts| - 1])
  }

  predicate ContainsSelector(members: seq<Extension>, selector: string) {
    exists m | m in members :: m.head.selector == selector || (m.Group? && ContainsSelector(m.members, selector))
  }

  /** The contributions behind a list of selectors. */
  function Named(contributions: map<string, Extension>, selectors: seq<string>): seq<Extension>
    requires forall s | s in selectors :: s in contributions
  {
    if selectors == [] then []
    else Named(contributions, selectors[..|selectors| - 1]) + [contributions[selectors[|selectors| - 1]]]
  }

  lemma {:induction false} NamedJoins(contributions: map<string, Extension>, a: seq<string>, b: seq<string>)
    requires forall s | s in a + b :: s in contributions
    ensures (forall s | s in a :: s in contributions) && (forall s | s in b :: s in contributions)
    ensures Named(contributions, a + b) == Named(contributions, a) + Named(contributions, b)
  {
    assert forall s | s in a :: s in a + b;
    assert forall s | s in b :: s in a + b;
    if b == [] {
      assert a + b == a;
    } else {
      assert (a + b)[..|a + b| - 1] == a + b[..|b| - 1];
      NamedJoins(contributions, a, b[..|b| - 1]);
    }
  }

  lemma {:induction false} LeavesJoin(a: seq<Extension>, b: seq<Extension>)
    ensures LeavesOf(a + b) == LeavesOf(a) + LeavesOf(b)
  {
    if b == [] {
      assert a + b == a;
    } else {
      assert (a + b)[..|a + b| - 1] == a + b[..|b| - 1];
      LeavesJoin(a, b[..|b| - 1]);
    }
  }

  lemma LeavesOfOne(ext: Extension)
    ensures LeavesOf([ext]) == Leaves(ext)
  {
    assert [ext][..0] == [];
  }

  /** Reading consumed the selectors in `used1` after `used`, each once, and took exactly their contributions. */
  ghost predicate Took(contributions: map<string, Extension>, used: seq<string>, used1: seq<string>,
                       exts: seq<Extension>) {
    && used <= used1
    && (Distinct(used) ==> Distinct(used1))
    && (forall s | s in used1[|used|..] :: s in contributions)
    && LeavesOf(exts) == LeavesOf(Named(contributions, used1[|used|..]))
    && (exts != [] ==> |used1| > |used|)
    && (forall s | s in used1[|used|..] :: HasSelector(contributions, s) ==> ContainsSelector(exts, s))
    && ((forall s | s in contributions :: WellFormed(contributions[s])) ==> forall e | e in exts :: WellFormed(e))
  }

  /** A contribution is listed under its own selector. */
  ghost predicate HasSelector(contributions: map<string, Extension>, s: string) {
    s in contributions && contributions[s].head.selector == s
  }

  lemma TookThen(contributions: map<string, Extension>, a: seq<string>, b: seq<string>, d: seq<string>,
                 xs: seq<Extension>, ys: seq<Extension>)
    requires Took(contributions, a, b, xs) && Took(contributions, b, d, ys)
    ensures Took(contributions, a, d, xs + ys)
  {
    var s, t := b[|a|..], d[|b|..];
    assert d[|a|..] == s + t;
    NamedJoins(contributions, s, t);
    LeavesJoin(xs, ys);
    LeavesJoin(Named(contributions, s), Named(contributions, t));
    forall k | k in d[|a|..] && HasSelector(contributions, k) ensures ContainsSelector(xs + ys, k) {
      if k in s { ContainsMore(xs, xs + ys, k); } else { ContainsMore(ys, xs + ys, k); }
    }
  }

  lemma ContainsMore(xs: seq<Extension>, ys: seq<Extension>, selector: string)
    requires ContainsSelector(xs, selector) && forall x | x in xs :: x in ys
    ensures ContainsSelector(ys, selector)
  {
  }

  /** Wrapping members in a group hides none of their leaves or selectors. */
  lemma TookGroup(contributions: map<string, Extension>, a: seq<string>, b: seq<string>, members: seq<Extension>,
                  group: Extension)
    requires Took(contributions, a, b, members) && group.Group? && group.members == members && members != []
    requires (forall m | m in members :: WellFormed(m)) ==> WellFormed(group)
    ensures Took(contributions, a, b, [group])
  {
    LeavesOfOne(group);
    forall s | s in b[|a|..] && HasSelector(contributions, s) ensures ContainsSelector([group], s) {
      assert ContainsSelector(group.members, s);
      assert group in [group];
    }
  }

  lemma {:induction false} ReadGroupTakes(r: Reader, fields: map<string, Json>, used: seq<string>, depth: nat)
    requires depth <= MAX_GROUP_DEPTH && ReadGroup(r, fields, used, depth).Ok?
    ensures var (group, used1) := ReadGroup(r, fields, used, depth).value;
            group.Group? && group.members != [] && Took(r.contributions, used, used1, [group])
              && Took(r.contributions, used, used1, group.members)
    decreases MAX_GROUP_DEPTH - depth, 3
  {
    match Kinds(fields)[0]
    case SequenceOf => ReadListTakes(r, SequenceOf, fields["sequence"], used, depth);
    case ParallelOf => ReadListTakes(r, ParallelOf, fields["parallel"], used, depth);
    case ChoiceOf => ReadChoiceTakes(r, fields["choice"], used, depth);
  }

  lemma {:induction false} ReadListTakes(r: Reader, kind: Kind, raw: Json, used: seq<string>, depth: nat)
    requires depth < MAX_GROUP_DEPTH && kind != ChoiceOf && ReadList(r, kind, raw, used, depth).Ok?
    ensures var (group, used1) := ReadList(r, kind, raw, used, depth).value;
            group.Group? && group.members != [] && Took(r.contributions, used, used1, [group])
              && Took(r.contributions, used, used1, group.members)
    decreases MAX_GROUP_DEPTH - depth, 2
  {
    ReadMembersTake(r, raw.items, used, depth);
    var (members, used1) := ReadMembers(r, raw.items, used, depth).value;
    TookGroup(r.contributions, used, used1, members, Group(NO_HEAD, kind, members, "", [], 0));
  }

  lemma {:induction false} ReadChoiceTakes(r: Reader, raw: Json, used: seq<string>, depth: nat)
    requires depth < MAX_GROUP_DEPTH && ReadChoice(r, raw, used, depth).Ok?
    ensures var (group, used1) := ReadChoice(r, raw, used, depth).value;
            group.Group? && group.members != [] && Took(r.contributions, used, used1, [group])
              && Took(r.contributions, used, used1, group.members)
    decreases MAX_GROUP_DEPTH - depth, 2
  {
    var choice := raw.fields;
    ReadBranchesTake(r, choice["branches"].items, used, depth);
    var (members, conditions, used1) := ReadBranches(r, choice["branches"].items, used, depth).value;
    var rawDefault := if "default" in choice then choice["default"] else JNull;
    ReadMemberTakes(r, rawDefault, used1, depth);
    var (default, used2) := ReadMember(r, rawDefault, used1, depth).value;
    TookThen(r.contributions, used, used1, used2, members, [default]);
    TookGroup(r.contributions, used, used2, members + [default],
              Group(NO_HEAD, ChoiceOf, members + [default], choice["selection"].text, conditions, |members|));
  }

  lemma {:induction false} ReadMembersTake(r: Reader, raws: seq<Json>, used: seq<string>, depth: nat)
    requires depth < MAX_GROUP_DEPTH && ReadMembers(r, raws, used, depth).Ok?
    ensures var (members, used1) := ReadMembers(r, raws, used, depth).value; Took(r.contributions, used, used1, members)
    decreases MAX_GROUP_DEPTH - depth, 1, |raws|
  {
    if raws != [] {
      ReadMembersTake(r, raws[..|raws| - 1], used, depth);
      var (front, used1) := ReadMembers(r, raws[..|raws| - 1], used, depth).value;
      ReadMemberTakes(r, raws[|raws| - 1], used1, depth);
      var (last, used2) := ReadMember(r, raws[|raws| - 1], used1, depth).value;
      TookThen(r.contributions, used, used1, used2, front, [last]);
    }
  }

  lemma {:induction false} ReadBranchesTake(r: Reader, raws: seq<Json>, used: seq<string>, depth: nat)
    requires depth < MAX_GROUP_DEPTH && ReadBranches(r, raws, used, depth).Ok?
    ensures var (members, _, used1) := ReadBranches(r, raws, used, depth).value;
            Took(r.contributions, used, used1, members)
    decreases MAX_GROUP_DEPTH - depth, 1, |raws|
  {
    if raws != [] {
      ReadBranchesTake(r, raws[..|raws| - 1], used, depth);
      var (front, _, used1) := ReadBranches(r, raws[..|raws| - 1], used, depth).value;
      var use := raws[|raws| - 1].fields["use"];
      ReadMemberTakes(r, use, used1, depth);
      var (last, used2) := ReadMember(r, use, used1, depth).value;
      TookThen(r.contributions, used, used1, used2, front, [last]);
    }
  }

  /** Naming one contribution takes just that one. */
  lemma TookOne(contributions: map<string, Extension>, used: seq<string>, selector: string)
    requires selector in contributions && selector !in used
    ensures Took(contributions, used, used + [selector], [contributions[selector]])
  {
    var member, more := contributions[selector], used + [selector];
    assert more[|used|..] == [selector] && [selector][..0] == [];
    assert Named(contributions, [selector]) == [member];
    assert member in [member];
    if Distinct(used) {
      forall i, j | 0 <= i < j < |more| ensures more[i] != more[j] { assert more[i] == used[i]; }
    }
  }

  lemma {:induction false} ReadMemberTakes(r: Reader, raw: Json, used: seq<string>, depth: nat)
    requires depth < MAX_GROUP_DEPTH && ReadMember(r, raw, used, depth).Ok?
    ensures var (member, used1) := ReadMember(r, raw, used, depth).value; Took(r.contributions, used, used1, [member])
    decreases MAX_GROUP_DEPTH - depth, 0
  {
    hide Took, ReadGroup;
    match raw
    case JString(selector) => TookOne(r.contributions, used, selector);
    case JObject(nested) => ReadGroupTakes(r, nested, used, depth + 1);
    case _ =>
  }

  // ----- The whole arrangement -----------------------------------------------------------------

  datatype Composition = Composition(
    name: string, rootName: string, rootSource: string, extensions: seq<Extension>, groups: seq<Json>,
    validName: string -> bool, condition: Json -> Predicate)

  function TextAt(fields: map<string, Json>, key: string): string {
    if key in fields && fields[key].JString? then fields[key].text else ""
  }

  function ObjectAt(fields: map<string, Json>, key: string): Option<map<string, Json>> {
    if key in fields && fields[key].JObject? then Some(fields[key].fields) else None
  }

  /** One declared group: its identity, edge, members and routes. */
  function ReadDeclaration(n: Composition, contributions: map<string, Extension>, raw: Json, ids: set<string>,
                           used: seq<string>)
    : Result<(Extension, seq<string>)>
  {
    if !raw.JObject? || !(raw.fields.Keys <= {"id", "between", "sequence", "parallel", "choice", "on", "on_error"})
      then Refused(INVALID)
    else
      var fields := raw.fields;
      var id := TextAt(fields, "id");
      if "id" !in fields || !fields["id"].JString? || !(n.validName)(id) then Refused(INVALID)
      else if id in ids then Refused(STAGE_CONFLICT)
      else
        var between, routes := ObjectAt(fields, "between"), ObjectAt(fields, "on");
        if between.None? || |between.value| != 2 then Refused(INVALID)
        else
          var from, to := TextAt(between.value, "from"), TextAt(between.value, "to");
          if from == "" || to == "" then Refused(INVALID)
          else
            var (group, used1) :- ReadGroup(Reader(contributions, from, to, n.condition), fields, used, 0);
            if routes.None? || |routes.value| != 2 then Refused(INVALID)
            else
              var succeeded, rejected := TextAt(routes.value, "succeeded"), TextAt(routes.value, "rejected");
              if succeeded != to || rejected == "" || rejected == to then Refused(INVALID)
              else
                var onError := if TextAt(fields, "on_error") == "" then rejected else TextAt(fields, "on_error");
                Ok((WithHead(group, Head(id, n.rootName, n.name + "." + id, n.rootSource + "#arrange/" + id, from, to,
                                        map["succeeded" := succeeded, "rejected" := rejected], onError)), used1))
  }

  function ReaderOf(n: Composition, contributions: map<string, Extension>, fields: map<string, Json>): Reader {
    var between := ObjectAt(fields, "between");
    Reader(contributions, if between.Some? then TextAt(between.value, "from") else "",
           if between.Some? then TextAt(between.value, "to") else "", n.condition)
  }

  /**
   An identity, an edge, a group of the right shape, and routes: succeeding leads
   on, being rejected leads elsewhere.
   */
  predicate DeclarationShaped(n: Composition, raw: Json) {
    && raw.JObject? && raw.fields.Keys <= {"id", "between", "sequence", "parallel", "choice", "on", "on_error"}
    && "id" in raw.fields && raw.fields["id"].JString? && (n.validName)(TextAt(raw.fields, "id"))
    && ObjectAt(raw.fields, "between").Some? && ObjectAt(raw.fields, "on").Some?
    && var between, on := ObjectAt(raw.fields, "between").value, ObjectAt(raw.fields, "on").value;
       && |between| == 2 && TextAt(between, "from") != "" && TextAt(between, "to") != ""
       && Shaped(raw.fields, 0)
       && |on| == 2 && TextAt(on, "succeeded") == TextAt(between, "to")
       && TextAt(on, "rejected") !in {"", TextAt(between, "to")}
  }

  /** The group is what its declaration says, and every contribution in it is attached to the group's edge. */
  ghost predicate DeclaredAs(n: Composition, contributions: map<string, Extension>, raw: Json, group: Extension) {
    && DeclarationShaped(n, raw) && group.Group?
    && var h, r := group.head, ReaderOf(n, contributions, raw.fields);
       var rejected, onError := TextAt(ObjectAt(raw.fields, "on").value, "rejected"), TextAt(raw.fields, "on_error");
       && h == Head(TextAt(raw.fields, "id"), n.rootName, n.name + "." + h.id,
                    n.rootSource + "#arrange/" + h.id, r.from, r.to,
                    map["succeeded" := r.to, "rejected" := rejected], if onError == "" then rejected else onError)
       && Declares(r, raw.fields, WithHead(group, NO_HEAD), 0)
       && forall s | s in Mentions(raw.fields, 0) ::
            s in contributions && contributions[s].head.from == h.from && contributions[s].head.to == h.to
  }

  /**
   A declaration can be read exactly if it has the right shape, its identity is new,
   and its contributions are available.
   */
  lemma DeclarationReadsExactlyWhen(n: Composition, contributions: map<string, Extension>, raw: Json, ids: set<string>,
                                    used: seq<string>)
    ensures ReadDeclaration(n, contributions, raw, ids, used).Ok? <==>
              && DeclarationShaped(n, raw) && TextAt(raw.fields, "id") !in ids
              && Available(ReaderOf(n, contributions, raw.fields), used, Mentions(raw.fields, 0))
    ensures ReadDeclaration(n, contributions, raw, ids, used).Ok? ==>
              var (group, used1) := ReadDeclaration(n, contributions, raw, ids, used).value;
              used1 == used + Mentions(raw.fields, 0) && DeclaredAs(n, contributions, raw, group)
  {
    hide ReadGroup, Mentions, Shaped, Declares;
    if raw.JObject? {
      var r := ReaderOf(n, contributions, raw.fields);
      ReadsExactlyWhen(r, raw.fields, used, 0);
      if ReadGroup(r, raw.fields, used, 0).Ok? { IsHeadless(r, raw.fields, ReadGroup(r, raw.fields, used, 0).value.0); }
    }
  }

  lemma IsHeadless(r: Reader, fields: map<string, Json>, group: Extension)
    requires Declares(r, fields, group, 0)
    ensures group.Group? && group.head == NO_HEAD
  {
  }

  /** A group made of well formed members as declared is well formed, whatever its head. */
  lemma DeclaredWellFormed(r: Reader, fields: map<string, Json>, inner: Extension, group: Extension)
    requires Declares(r, fields, inner, 0) && group == WithHead(inner, group.head)
             && forall m | m in group.members :: WellFormed(m)
    ensures WellFormed(group)
  {
    hide MemberIs;
  }

  /** What reading the declarations in order gives: the groups, the contributions they used, and their identities. */
  datatype Readings = Readings(groups: seq<Extension>, used: seq<string>, ids: set<string>)

  function ReadAll(n: Composition, contributions: map<string, Extension>, raws: seq<Json>): Result<Readings> {
    if raws == [] then Ok(Readings([], [], {}))
    else
      var before :- ReadAll(n, contributions, raws[..|raws| - 1]);
      var (group, used) :- ReadDeclaration(n, contributions, raws[|raws| - 1], before.ids, before.used);
      Ok(Readings(before.groups + [group], used, before.ids + {group.head.id}))
  }

  lemma {:induction false} ReadAllRefused(n: Composition, contributions: map<string, Extension>, raws: seq<Json>,
                                          i: nat)
    requires i <= |raws| && ReadAll(n, contributions, raws[..i]).Refused?
    ensures ReadAll(n, contributions, raws) == Refused(ReadAll(n, contributions, raws[..i]).code)
  {
    if i < |raws| {
      assert raws[..|raws| - 1][..i] == raws[..i];
      ReadAllRefused(n, contributions, raws[..|raws| - 1], i);
    } else {
      assert raws[..i] == raws;
    }
  }

  lemma DeclarationTakes(n: Composition, contributions: map<string, Extension>, raw: Json, ids: set<string>,
                         used: seq<string>)
    requires ReadDeclaration(n, contributions, raw, ids, used).Ok?
    ensures var (group, used1) := ReadDeclaration(n, contributions, raw, ids, used).value;
            && group.Group? && group.members != [] && group.head.id !in ids && DeclaredAs(n, contributions, raw, group)
            && Took(contributions, used, used1, [group]) && Took(contributions, used, used1, group.members)
  {
    hide ReadGroup, Took, Available, Declares, Mentions, Shaped, WellFormed;
    DeclarationReadsExactlyWhen(n, contributions, raw, ids, used);
    var r := ReaderOf(n, contributions, raw.fields);
    ReadsExactlyWhen(r, raw.fields, used, 0);
    ReadGroupTakes(r, raw.fields, used, 0);
    var (inner, used1) := ReadGroup(r, raw.fields, used, 0).value;
    var group := ReadDeclaration(n, contributions, raw, ids, used).value.0;
    assert group == WithHead(inner, group.head);
    if forall m | m in group.members :: WellFormed(m) { DeclaredWellFormed(r, raw.fields, inner, group); }
    TookGroup(contributions, used, used1, inner.members, group);
  }

  /** Distinct leaves by source, and no group nested too deep. */
  function ValidateMembers(members: seq<Extension>, depth: nat, origins: set<string>): Result<set<string>>
    decreases members, 0
  {
    if members == [] then Ok(origins)
    else
      var before :- ValidateMembers(members[..|members| - 1], depth, origins);
      ValidateMember(members[|members| - 1], depth, before)
  }

  function ValidateMember(member: Extension, depth: nat, origins: set<string>): Result<set<string>>
    decreases member, 1
  {
    if member.Group? then
      if depth >= MAX_GROUP_DEPTH then Refused(LIMIT) else ValidateMembers(member.members, depth + 1, origins)
    else if member.head.source == "" then Ok(origins)
    else if member.head.source in origins then Refused(DUPLICATE)
    else Ok(origins + {member.head.source})
  }

  function Sources(leaves: seq<Extension>): seq<string> {
    if leaves == [] then []
    else Sources(leaves[..|leaves| - 1])
         + if leaves[|leaves| - 1].head.source == "" then [] else [leaves[|leaves| - 1].head.source]
  }

  lemma {:induction false} SourcesJoin(a: seq<Extension>, b: seq<Extension>)
    ensures Sources(a + b) == Sources(a) + Sources(b)
  {
    if b == [] {
      assert a + b == a;
    } else {
      assert (a + b)[..|a + b| - 1] == a + b[..|b| - 1];
      SourcesJoin(a, b[..|b| - 1]);
    }
  }

  /** Group nesting below a list of members. */
  predicate Within(members: seq<Extension>, depth: nat)
    decreases members
  {
    forall m | m in members :: m.Group? ==> depth < 8 && Within(m.members, depth + 1)
  }

  /** The leaf sources of a list differ, and none was seen before. */
  ghost predicate NewSources(leaves: seq<Extension>, origins: set<string>, after: set<string>) {
    Distinct(Sources(leaves)) && Elements(Sources(leaves)) !! origins && after == origins + Elements(Sources(leaves))
  }

  lemma NewSourcesJoin(a: seq<Extension>, b: seq<Extension>, origins: set<string>, before: set<string>,
                       after: set<string>)
    requires NewSources(a, origins, before) && NewSources(b, before, after)
    ensures NewSources(a + b, origins, after)
  {
    hide Distinct, Elements, Sources;
    SourcesJoin(a, b);
    DistinctJoin(Sources(a), Sources(b));
  }

  lemma {:induction false} ValidatedAre(members: seq<Extension>, depth: nat, origins: set<string>)
    requires ValidateMembers(members, depth, origins).Ok?
    ensures NewSources(LeavesOf(members), origins, ValidateMembers(members, depth, origins).value)
            && Within(members, depth)
    decreases members, 0
  {
    if members == [] {
      NothingNew(origins);
    } else {
      hide NewSources, Within, Leaves;
      var front, last := members[..|members| - 1], members[|members| - 1];
      ValidatedAre(front, depth, origins);
      var before := ValidateMembers(front, depth, origins).value;
      ValidatedIs(last, depth, before);
      NewSourcesJoin(LeavesOf(front), Leaves(last), origins, before, ValidateMember(last, depth, before).value);
      WithinMore(front, last, depth);
      assert members == front + [last];
    }
  }

  lemma NothingNew(origins: set<string>)
    ensures NewSources([], origins, origins)
  {
  }

  lemma WithinMore(front: seq<Extension>, last: Extension, depth: nat)
    requires Within(front, depth) && (last.Group? ==> depth < MAX_GROUP_DEPTH && Within(last.members, depth + 1))
    ensures Within(front + [last], depth)
  {
  }

  lemma {:induction false} ValidatedIs(member: Extension, depth: nat, origins: set<string>)
    requires ValidateMember(member, depth, origins).Ok?
    ensures NewSources(Leaves(member), origins, ValidateMember(member, depth, origins).value)
    ensures member.Group? ==> depth < MAX_GROUP_DEPTH && Within(member.members, depth + 1)
    decreases member, 1
  {
    if member.Group? {
      ValidatedAre(member.members, depth + 1, origins);
    } else {
      assert [member][..0] == [] && Sources([]) == [];
      assert Sources([member]) == if member.head.source == "" then [] else [member.head.source];
    }
  }

  // ----- Arranging a node ----------------------------------------------------------------------------

  lemma LeavesAround(a: seq<Extension>, x: Extension, b: seq<Extension>)
    ensures LeavesOf(a + [x] + b) == LeavesOf(a) + Leaves(x) + LeavesOf(b)
  {
    LeavesJoin(a + [x], b);
    assert (a + [x])[..|a|] == a;
  }

  lemma TakenOut(a: seq<Extension>, x: Extension, b: seq<Extension>)
    ensures multiset(LeavesOf(a + [x] + b)) == multiset(LeavesOf(a + b)) + multiset(Leaves(x))
  {
    LeavesAround(a, x, b);
    LeavesJoin(a, b);
  }

  /** Reordering contributions only reorders their leaves. */
  lemma {:induction false} LeavesPermute(xs: seq<Extension>, ys: seq<Extension>)
    requires multiset(xs) == multiset(ys)
    ensures multiset(LeavesOf(xs)) == multiset(LeavesOf(ys))
  {
    if xs == [] {
      assert |multiset(ys)| == 0;
      assert ys == [];
    } else {
      var front, last := xs[..|xs| - 1], xs[|xs| - 1];
      assert xs == front + [last];
      assert last in multiset(ys);
      var k :| 0 <= k < |ys| && ys[k] == last;
      var rest := ys[..k] + ys[k + 1..];
      assert ys == ys[..k] + [last] + ys[k + 1..];
      assert multiset(rest) == multiset(ys) - multiset{last};
      assert multiset(front) == multiset(xs) - multiset{last};
      LeavesPermute(front, rest);
      TakenOut(ys[..k], last, ys[k + 1..]);
    }
  }

  ghost predicate DistinctSelectors(exts: seq<Extension>) {
    forall i, j | 0 <= i < j < |exts| :: exts[i].head.selector != exts[j].head.selector
  }

  /** The contributions by selector. */
  ghost predicate Indexes(contributions: map<string, Extension>, exts: seq<Extension>) {
    && (forall e | e in exts :: e.head.selector in contributions && contributions[e.head.selector] == e)
    && forall s | s in contributions :: contributions[s] in exts && contributions[s].head.selector == s
  }

  function Unused(exts: seq<Extension>, used: seq<string>): seq<Extension> {
    if exts == [] then []
    else Unused(exts[..|exts| - 1], used) + if exts[|exts| - 1].head.selector in used then [] else [exts[|exts| - 1]]
  }

  lemma {:induction false} UnusedAre(exts: seq<Extension>, used: seq<string>)
    requires DistinctSelectors(exts)
    ensures (forall e :: e in Unused(exts, used) <==> e in exts && e.head.selector !in used)
            && Distinct(Unused(exts, used))
  {
    if exts != [] {
      var front, last := exts[..|exts| - 1], exts[|exts| - 1];
      UnusedAre(front, used);
      assert exts == front + [last];
    }
  }

  lemma {:induction false} NamedAre(contributions: map<string, Extension>, exts: seq<Extension>, used: seq<string>)
    requires Indexes(contributions, exts) && Distinct(used) && forall s | s in used :: s in contributions
    ensures (forall e :: e in Named(contributions, used) <==> e in exts && e.head.selector in used)
    ensures Distinct(Named(contributions, used))
  {
    if used != [] {
      var front, last := used[..|used| - 1], used[|used| - 1];
      assert used == front + [last];
      NamedAre(contributions, exts, front);
    }
  }

  /** What is not used and what is used are, together, all contributions. */
  lemma UsedAndUnused(contributions: map<string, Extension>, exts: seq<Extension>, used: seq<string>)
    requires Indexes(contributions, exts) && DistinctSelectors(exts) && Distinct(used)
             && forall s | s in used :: s in contributions
    ensures multiset(Unused(exts, used) + Named(contributions, used)) == multiset(exts)
  {
    UnusedAre(exts, used);
    NamedAre(contributions, exts, used);
    var a, b := Unused(exts, used), Named(contributions, used);
    assert Elements(a) !! Elements(b);
    DistinctJoin(a, b);
    assert Distinct(exts);
    DistinctSameElements(a + b, exts);
  }

  /** Some contribution the group consumed is found inside it. */
  ghost predicate Reached(contributions: map<string, Extension>, used: seq<string>, g: Extension)
    requires g.Group?
  {
    exists s :: s in used && HasSelector(contributions, s) && ContainsSelector(g.members, s)
  }

  ghost predicate AllReached(contributions: map<string, Extension>, used: seq<string>, groups: seq<Extension>) {
    forall g | g in groups :: g.Group? && Reached(contributions, used, g)
  }

  /** Group identities differ, and the selector of a group is made from its identity. */
  ghost predicate GroupNames(n: Composition, groups: seq<Extension>, ids: set<string>) {
    && (forall g | g in groups :: g.head.selector == n.name + "." + g.head.id && g.head.id in ids)
    && forall i, j | 0 <= i < j < |groups| :: groups[i].head.id != groups[j].head.id
  }

  /** The groups are what the declarations say, in order. */
  ghost predicate GroupsDeclared(n: Composition, contributions: map<string, Extension>, raws: seq<Json>,
                                 groups: seq<Extension>) {
    |groups| == |raws| && forall i | 0 <= i < |groups| :: DeclaredAs(n, contributions, raws[i], groups[i])
  }

  /**
   What arranging guarantees: the list holds the groups read from the
   declarations, each once and as declared, and the remaining contributions,
   each once, a group where the first of its contributions stood; its leaves
   are the leaves that came in; leaf sources, edges and stage identities do
   not repeat.
   */
  ghost predicate Arranged(n: Composition, read: Readings, result: seq<Extension>) {
    && GroupsDeclared(n, Index(n.extensions), n.groups, read.groups)
    && multiset(result) == multiset(read.groups) + multiset(Unused(n.extensions, read.used))
    && InOrder(n.extensions, read.groups, read.used, result, |n.extensions|)
    && multiset(LeavesOf(result)) == multiset(LeavesOf(n.extensions))
    && Distinct(Sources(LeavesOf(result))) && Within(result, 0)
    && Free(Edges(result), result) && Free(Ids(result), result)
    && ((forall e | e in result :: e.head.selector != "") ==> DistinctPlaces(result))
    && ((forall e | e in n.extensions :: WellFormed(e)) ==> forall e | e in result :: WellFormed(e))
  }

  function Edge(e: Extension): string {
    e.head.from + " -> " + e.head.to
  }

  ghost predicate DistinctPlaces(exts: seq<Extension>) {
    forall i, j | 0 <= i < j < |exts| :: Edge(exts[i]) != Edge(exts[j]) && exts[i].head.id != exts[j].head.id
  }

  function Index(exts: seq<Extension>): map<string, Extension> {
    if exts == [] then map[] else Index(exts[..|exts| - 1])[exts[|exts| - 1].head.selector := exts[|exts| - 1]]
  }

  lemma NothingIndexed(exts: seq<Extension>)
    ensures DistinctSelectors(exts[..0]) && Indexes(map[], exts[..0]) && Index(exts[..0]) == map[]
  {
  }

  lemma IndexAdds(front: seq<Extension>, last: Extension, contributions: map<string, Extension>)
    requires DistinctSelectors(front) && Indexes(contributions, front) && last.head.selector !in contributions
    ensures DistinctSelectors(front + [last]) && Indexes(contributions[last.head.selector := last], front + [last])
  {
    forall i | 0 <= i < |front| ensures front[i].head.selector != last.head.selector { assert front[i] in front; }
    assert last in front + [last] && forall e | e in front :: e in front + [last];
  }

  lemma IndexStep(exts: seq<Extension>, i: nat, contributions: map<string, Extension>)
    requires i < |exts| && DistinctSelectors(exts[..i]) && Indexes(contributions, exts[..i])
    ensures exts[i].head.selector in contributions ==> !DistinctSelectors(exts)
    ensures exts[i].head.selector !in contributions ==>
              DistinctSelectors(exts[..i + 1])
              && Indexes(contributions[exts[i].head.selector := exts[i]], exts[..i + 1])
    ensures Index(exts[..i + 1]) == Index(exts[..i])[exts[i].head.selector := exts[i]]
  {
    hide DistinctSelectors;
    var front, s := exts[..i], exts[i].head.selector;
    assert exts[..i + 1] == front + [exts[i]] && exts[..i + 1][..i] == front;
    if s in contributions {
      var j :| 0 <= j < i && front[j] == contributions[s];
      SelectorTwice(exts, j, i);
    } else {
      IndexAdds(front, exts[i], contributions);
    }
  }

  lemma SelectorTwice(exts: seq<Extension>, j: nat, i: nat)
    requires j < i < |exts| && exts[j].head.selector == exts[i].head.selector
    ensures !DistinctSelectors(exts)
  {
  }

  /** Index the contributions by selector; two with the same selector are refused. */
  method IndexContributions(exts: seq<Extension>) returns (r: Result<map<string, Extension>>)
    ensures r == if DistinctSelectors(exts) then Ok(Index(exts)) else Refused(DUPLICATE)
    ensures r.Ok? ==> Indexes(r.value, exts)
  {
    hide DistinctSelectors, Indexes, Index;
    var contributions: map<string, Extension> := map[];
    NothingIndexed(exts);
    for i := 0 to |exts|
      invariant DistinctSelectors(exts[..i]) && Indexes(contributions, exts[..i]) && contributions == Index(exts[..i])
    {
      IndexStep(exts, i, contributions);
      if exts[i].head.selector in contributions {
        return Refused(DUPLICATE);
      }
      contributions := contributions[exts[i].head.selector := exts[i]];
    }
    assert exts[..|exts|] == exts;
    return Ok(contributions);
  }

  lemma ReachedGrows(contributions: map<string, Extension>, used: seq<string>, used1: seq<string>,
                     groups: seq<Extension>, group: Extension)
    requires AllReached(contributions, used, groups) && (forall s | s in contributions :: HasSelector(contributions, s))
    requires group.Group? && group.members != [] && Took(contributions, used, used1, group.members)
    ensures AllReached(contributions, used1, groups + [group])
  {
    var s := used1[|used|];
    assert s in used1[|used|..] && s in used1 && HasSelector(contributions, s);
    forall g | g in groups + [group] ensures g.Group? && Reached(contributions, used1, g) {
      if g in groups {
        var t :| t in used && HasSelector(contributions, t) && ContainsSelector(g.members, t);
        assert t in used1;
      }
    }
  }

  lemma NamesGrow(n: Composition, groups: seq<Extension>, ids: set<string>, group: Extension)
    requires GroupNames(n, groups, ids) && group.head.id !in ids && group.head.selector == n.name + "." + group.head.id
    ensures GroupNames(n, groups + [group], ids + {group.head.id})
  {
    forall i | 0 <= i < |groups| ensures groups[i].head.id != group.head.id {
      assert groups[i] in groups;
    }
  }

  /** The state of reading declarations: the groups so far, with what they consumed and their identities. */
  ghost predicate ReadSoFar(n: Composition, contributions: map<string, Extension>, raws: seq<Json>,
                            groups: seq<Extension>, used: seq<string>, ids: set<string>)
  {
    && Took(contributions, [], used, groups) && AllReached(contributions, used, groups)
    && GroupNames(n, groups, ids) && GroupsDeclared(n, contributions, raws, groups)
  }

  lemma ReadOne(n: Composition, contributions: map<string, Extension>, raws: seq<Json>, raw: Json,
                groups: seq<Extension>, used: seq<string>, ids: set<string>, group: Extension, used1: seq<string>)
    requires ReadSoFar(n, contributions, raws, groups, used, ids)
    requires forall s | s in contributions :: HasSelector(contributions, s)
    requires DeclaredAs(n, contributions, raw, group) && group.members != [] && group.head.id !in ids
    requires Took(contributions, used, used1, [group]) && Took(contributions, used, used1, group.members)
    ensures ReadSoFar(n, contributions, raws + [raw], groups + [group], used1, ids + {group.head.id})
  {
    hide AllReached, GroupNames, Took, DeclaredAs;
    HeadOf(n, contributions, raw, group);
    TookThen(contributions, [], used, used1, groups, [group]);
    ReachedGrows(contributions, used, used1, groups, group);
    NamesGrow(n, groups, ids, group);
  }

  lemma HeadOf(n: Composition, contributions: map<string, Extension>, raw: Json, group: Extension)
    requires DeclaredAs(n, contributions, raw, group)
    ensures group.Group? && group.head.selector == n.name + "." + group.head.id
  {
  }

  lemma ReadNone(n: Composition, contributions: map<string, Extension>)
    ensures ReadSoFar(n, contributions, [], [], [], {})
  {
  }

  /** What reading all declarations guarantees of the groups. */
  lemma {:induction false} ReadAllHolds(n: Composition, contributions: map<string, Extension>, raws: seq<Json>)
    requires (forall s | s in contributions :: HasSelector(contributions, s)) && ReadAll(n, contributions, raws).Ok?
    ensures var read := ReadAll(n, contributions, raws).value;
            ReadSoFar(n, contributions, raws, read.groups, read.used, read.ids)
  {
    hide ReadSoFar, Took, DeclaredAs, ReadDeclaration, HasSelector;
    if raws == [] {
      ReadNone(n, contributions);
    } else {
      var front, raw := raws[..|raws| - 1], raws[|raws| - 1];
      ReadAllHolds(n, contributions, front);
      var before := ReadAll(n, contributions, front).value;
      DeclarationTakes(n, contributions, raw, before.ids, before.used);
      var (group, used) := ReadDeclaration(n, contributions, raw, before.ids, before.used).value;
      ReadOne(n, contributions, front, raw, before.groups, before.used, before.ids, group, used);
      assert raws == front + [raw];
    }
  }

  method ReadGroups(n: Composition, contributions: map<string, Extension>) returns (r: Result<Readings>)
    ensures r == ReadAll(n, contributions, n.groups)
  {
    hide ReadDeclaration;
    var groups: seq<Extension>, used: seq<string>, ids: set<string> := [], [], {};
    for i := 0 to |n.groups|
      invariant ReadAll(n, contributions, n.groups[..i]) == Ok(Readings(groups, used, ids))
    {
      assert n.groups[..i + 1][..i] == n.groups[..i];
      var read := ReadDeclaration(n, contributions, n.groups[i], ids, used);
      if read.Refused? {
        ReadAllRefused(n, contributions, n.groups, i + 1);
        return Refused(read.code);
      }
      groups, used, ids := groups + [read.value.0], read.value.1, ids + {read.value.0.head.id};
    }
    assert n.groups[..|n.groups|] == n.groups;
    return Ok(Readings(groups, used, ids));
  }

  /** A contribution passed belongs to this group. */
  ghost predicate Touched(passed: set<string>, g: Extension) {
    g.Group? && exists s :: s in passed && ContainsSelector(g.members, s)
  }

  /** The groups emitted so far: each once, and exactly those reached by a contribution already passed. */
  ghost predicate Emitting(groups: seq<Extension>, passed: set<string>, emitted: set<string>, out: seq<Extension>) {
    && DistinctSelectors(out) && (forall g | g in out :: g in groups)
    && emitted == (set g | g in out :: g.head.selector)
    && (forall g {:trigger Touched(passed, g)} | g in out :: Touched(passed, g))
    && forall g, s | g in groups && g.Group? && s in passed && ContainsSelector(g.members, s) ::
       g.head.selector in emitted
  }

  /** The groups one used contribution belongs to, without those already emitted. */
  function EmittedFor(groups: seq<Extension>, selector: string, emitted: set<string>): (seq<Extension>, set<string>)
    requires forall g | g in groups :: g.Group?
  {
    if groups == [] then ([], emitted)
    else
      var (added, more) := EmittedFor(groups[..|groups| - 1], selector, emitted);
      var g := groups[|groups| - 1];
      if g.head.selector !in more && ContainsSelector(g.members, selector) then (added + [g], more + {g.head.selector})
      else (added, more)
  }

  /** The arranged list before its final checks, and the selectors of the groups in it. */
  function Emission(exts: seq<Extension>, groups: seq<Extension>, used: seq<string>): (seq<Extension>, set<string>)
    requires forall g | g in groups :: g.Group?
  {
    if exts == [] then ([], {})
    else
      var (grouped, emitted) := Emission(exts[..|exts| - 1], groups, used);
      var last := exts[|exts| - 1];
      if last.head.selector !in used then (grouped + [last], emitted)
      else
        var (added, more) := EmittedFor(groups, last.head.selector, emitted);
        (grouped + added, more)
  }

  /** Emit the groups one used contribution belongs to, skipping those already emitted. */
  method EmitFor(groups: seq<Extension>, selector: string, emitted0: set<string>, ghost passed: set<string>,
                 ghost out0: seq<Extension>)
    returns (added: seq<Extension>, emitted: set<string>)
    requires Emitting(groups, passed, emitted0, out0) && forall g | g in groups :: g.Group?
    ensures Emitting(groups, passed + {selector}, emitted, out0 + added)
    ensures (added, emitted) == EmittedFor(groups, selector, emitted0)
  {
    hide EmittedFor;
    added, emitted := [], emitted0;
    TouchedMore(passed, selector, out0);
    NoneEmitted(groups, selector, emitted0);
    for i := 0 to |groups|
      invariant (added, emitted) == EmittedFor(groups[..i], selector, emitted0)
      invariant DistinctSelectors(out0 + added) && (forall g | g in out0 + added :: g in groups)
      invariant emitted == (set g | g in out0 + added :: g.head.selector) && emitted0 <= emitted
      invariant forall j | 0 <= j < i && ContainsSelector(groups[j].members, selector) ::
                  groups[j].head.selector in emitted
      invariant forall g {:trigger Touched(passed + {selector}, g)} | g in out0 + added ::
                  Touched(passed + {selector}, g)
    {
      EmittedOneMore(groups, i, selector, emitted0);
      var g := groups[i];
      if g.head.selector !in emitted && ContainsSelector(g.members, selector) {
        assert selector in passed + {selector};
        EmitOne(out0 + added, emitted, g);
        assert out0 + (added + [g]) == out0 + added + [g];
        added, emitted := added + [g], emitted + {g.head.selector};
      }
    }
  }

  lemma NoneEmitted(groups: seq<Extension>, selector: string, emitted: set<string>)
    requires forall g | g in groups :: g.Group?
    ensures EmittedFor(groups[..0], selector, emitted) == ([], emitted) && groups[..|groups|] == groups
  {
  }

  lemma EmittedOneMore(groups: seq<Extension>, i: nat, selector: string, emitted: set<string>)
    requires i < |groups| && forall g | g in groups :: g.Group?
    ensures var (added, more) := EmittedFor(groups[..i], selector, emitted);
            var g := groups[i];
            EmittedFor(groups[..i + 1], selector, emitted) ==
            if g.head.selector !in more && ContainsSelector(g.members, selector)
              then (added + [g], more + {g.head.selector})
            else (added, more)
  {
    assert groups[..i + 1][..i] == groups[..i];
  }

  lemma TouchedMore(passed: set<string>, selector: string, out: seq<Extension>)
    requires forall g {:trigger Touched(passed, g)} | g in out :: Touched(passed, g)
    ensures forall g {:trigger Touched(passed + {selector}, g)} | g in out :: Touched(passed + {selector}, g)
  {
    forall g | g in out ensures Touched(passed + {selector}, g) {
      assert Touched(passed, g);
      var s :| s in passed && ContainsSelector(g.members, s);
      assert s in passed + {selector};
    }
  }

  lemma EmitOne(out: seq<Extension>, emitted: set<string>, g: Extension)
    requires DistinctSelectors(out) && emitted == (set x | x in out :: x.head.selector) && g.head.selector !in emitted
    ensures DistinctSelectors(out + [g]) && emitted + {g.head.selector} == (set x | x in out + [g] :: x.head.selector)
  {
    forall i | 0 <= i < |out| ensures out[i].head.selector in emitted { }
    forall x | x in out + [g] ensures x.head.selector in emitted + {g.head.selector} { }
    forall s | s in emitted + {g.head.selector} ensures s in (set x | x in out + [g] :: x.head.selector) {
      if s in emitted {
        var x :| x in out && x.head.selector == s;
        assert x in out + [g];
      } else {
        assert g in out + [g];
      }
    }
  }

  ghost function UsedSelectors(exts: seq<Extension>, used: seq<string>): set<string> {
    if exts == [] then {}
    else UsedSelectors(exts[..|exts| - 1], used)
         + if exts[|exts| - 1].head.selector in used then {exts[|exts| - 1].head.selector} else {}
  }

  lemma {:induction false} UsedSelectorsAre(exts: seq<Extension>, used: seq<string>, e: Extension)
    requires e in exts && e.head.selector in used
    ensures e.head.selector in UsedSelectors(exts, used)
  {
    assert exts == exts[..|exts| - 1] + [exts[|exts| - 1]];
    if e != exts[|exts| - 1] { UsedSelectorsAre(exts[..|exts| - 1], used, e); }
  }

  lemma OneMoreExtension(exts: seq<Extension>, used: seq<string>, i: nat)
    requires i < |exts|
    ensures var selector := exts[i].head.selector;
            && Unused(exts[..i + 1], used) == Unused(exts[..i], used) + (if selector in used then [] else [exts[i]])
            && UsedSelectors(exts[..i + 1], used) == UsedSelectors(exts[..i], used)
              + if selector in used then {selector} else {}
  {
    assert exts[..i + 1][..i] == exts[..i];
  }

  /** The list so far holds the emitted groups and the unused contributions passed. */
  ghost predicate EmittedSoFar(exts: seq<Extension>, groups: seq<Extension>, used: seq<string>,
                               grouped: seq<Extension>, emitted: set<string>, out: seq<Extension>)
  {
    Emitting(groups, UsedSelectors(exts, used), emitted, out)
      && multiset(grouped) == multiset(out) + multiset(Unused(exts, used))
  }

  /**
   These first contributions account for exactly the beginning of the list: the
   unused ones, and the groups of the used ones.
   */
  ghost predicate StandsFirst(first: seq<Extension>, groups: seq<Extension>, used: seq<string>,
                              grouped: seq<Extension>) {
    exists k: nat, emitted, out :: k <= |grouped| && EmittedSoFar(first, groups, used, grouped[..k], emitted, out)
  }

  /** Order is kept: a group stands where the first of its contributions stood. */
  ghost predicate InOrder(exts: seq<Extension>, groups: seq<Extension>, used: seq<string>, grouped: seq<Extension>,
                          n: nat)
    requires n <= |exts|
  {
    forall i {:trigger exts[..i]} | 0 <= i <= n :: StandsFirst(exts[..i], groups, used, grouped)
  }

  lemma StillFirst(exts: seq<Extension>, n: nat, groups: seq<Extension>, used: seq<string>,
                   grouped: seq<Extension>, emitted: set<string>, out: seq<Extension>, added: seq<Extension>)
    requires n < |exts| && InOrder(exts, groups, used, grouped, n)
    requires EmittedSoFar(exts[..n + 1], groups, used, grouped + added, emitted, out)
    ensures InOrder(exts, groups, used, grouped + added, n + 1)
  {
    forall i {:trigger exts[..i]} | 0 <= i <= n + 1 ensures StandsFirst(exts[..i], groups, used, grouped + added) {
      if i <= n {
        assert StandsFirst(exts[..i], groups, used, grouped);
        var k: nat, e, o :| k <= |grouped| && EmittedSoFar(exts[..i], groups, used, grouped[..k], e, o);
        assert (grouped + added)[..k] == grouped[..k];
      } else {
        assert (grouped + added)[..|grouped + added|] == grouped + added;
      }
    }
  }

  lemma NothingFirst(exts: seq<Extension>, groups: seq<Extension>, used: seq<string>)
    ensures EmittedSoFar(exts[..0], groups, used, [], {}, []) && InOrder(exts, groups, used, [], 0)
  {
    var none: seq<Extension> := [];
    assert none[..0] == none;
    assert EmittedSoFar(exts[..0], groups, used, none[..0], {}, []);
  }

  /** Replace used contributions by their groups, where the first of each group's members stood. */
  method Emit(exts: seq<Extension>, groups: seq<Extension>,
              used: seq<string>) returns (grouped: seq<Extension>, emitted: set<string>, ghost out: seq<Extension>)
    requires forall g | g in groups :: g.Group?
    ensures EmittedSoFar(exts, groups, used, grouped, emitted, out) && InOrder(exts, groups, used, grouped, |exts|)
    ensures (grouped, emitted) == Emission(exts, groups, used)
  {
    hide Emitting, EmittedSoFar, InOrder, EmittedFor;
    grouped, emitted, out := [], {}, [];
    NothingFirst(exts, groups, used);
    for i := 0 to |exts|
      invariant EmittedSoFar(exts[..i], groups, used, grouped, emitted, out) && InOrder(exts, groups, used, grouped, i)
      invariant (grouped, emitted) == Emission(exts[..i], groups, used)
    {
      assert exts[..i + 1][..i] == exts[..i];
      var added, more;
      ghost var newly;
      EmittedIs(exts[..i], groups, used, grouped, emitted, out);
      added, more, newly := EmitAt(exts[i], groups, used, emitted, UsedSelectors(exts[..i], used), out);
      EmitStep(exts, i, groups, used, grouped, emitted, out, added, more, newly);
      StillFirst(exts, i, groups, used, grouped, more, out + newly, added);
      grouped, emitted, out := grouped + added, more, out + newly;
    }
    assert exts[..|exts|] == exts;
  }

  lemma EmittedIs(exts: seq<Extension>, groups: seq<Extension>, used: seq<string>, grouped: seq<Extension>,
                  emitted: set<string>, out: seq<Extension>)
    requires EmittedSoFar(exts, groups, used, grouped, emitted, out)
    ensures Emitting(groups, UsedSelectors(exts, used), emitted, out)
  {
  }

  lemma EmitStep(exts: seq<Extension>, i: nat, groups: seq<Extension>, used: seq<string>,
                 grouped: seq<Extension>, emitted: set<string>, out: seq<Extension>,
                 added: seq<Extension>, more: set<string>, newly: seq<Extension>)
    requires i < |exts| && EmittedSoFar(exts[..i], groups, used, grouped, emitted, out)
    requires Emitting(groups, UsedSelectors(exts[..i], used)
             + (if exts[i].head.selector in used then {exts[i].head.selector} else {}), more, out + newly)
    requires multiset(added) == multiset(newly) + multiset(if exts[i].head.selector in used then [] else [exts[i]])
    ensures EmittedSoFar(exts[..i + 1], groups, used, grouped + added, more, out + newly)
  {
    OneMoreExtension(exts, used, i);
  }

  method EmitAt(e: Extension, groups: seq<Extension>, used: seq<string>, emitted0: set<string>,
                ghost passed: set<string>, ghost out: seq<Extension>)
    returns (added: seq<Extension>, emitted: set<string>, ghost newly: seq<Extension>)
    requires (forall g | g in groups :: g.Group?) && Emitting(groups, passed, emitted0, out)
    ensures Emitting(groups, passed + (if e.head.selector in used then {e.head.selector} else {}), emitted, out + newly)
    ensures multiset(added) == multiset(newly) + multiset(if e.head.selector in used then [] else [e])
    ensures (added, emitted)
         == if e.head.selector in used then EmittedFor(groups, e.head.selector, emitted0) else ([e], emitted0)
  {
    if e.head.selector !in used {
      assert out + [] == out && passed + {} == passed;
      return [e], emitted0, [];
    }
    added, emitted := EmitFor(groups, e.head.selector, emitted0, passed, out);
    newly := added;
  }

  /** Once every contribution was passed, each group has been emitted: the refusal for a lost group cannot happen. */
  lemma EveryGroupEmitted(n: Composition, contributions: map<string, Extension>, groups: seq<Extension>,
                          used: seq<string>, ids: set<string>, emitted: set<string>, out: seq<Extension>)
    requires AllReached(contributions, used, groups) && GroupNames(n, groups, ids)
             && Indexes(contributions, n.extensions)
    requires Emitting(groups, UsedSelectors(n.extensions, used), emitted, out)
    ensures multiset(out) == multiset(groups) && |emitted| == |groups|
  {
    GroupSelectorsDiffer(n, groups, ids);
    forall g | g in groups ensures g in out {
      assert Reached(contributions, used, g);
      var s :| s in used && HasSelector(contributions, s) && ContainsSelector(g.members, s);
      UsedSelectorsAre(n.extensions, used, contributions[s]);
      GroupIsOut(groups, UsedSelectors(n.extensions, used), emitted, out, g, s);
    }
    DistinctSameElements(out, groups);
    SelectorCount(out, emitted);
    assert |multiset(out)| == |out| && |multiset(groups)| == |groups|;
  }

  lemma GroupIsOut(groups: seq<Extension>, passed: set<string>, emitted: set<string>, out: seq<Extension>, g: Extension,
                   s: string)
    requires Emitting(groups, passed, emitted, out) && DistinctSelectors(groups)
    requires g in groups && g.Group? && s in passed && ContainsSelector(g.members, s)
    ensures g in out
  {
    assert g.head.selector in emitted;
    var other :| other in out && other.head.selector == g.head.selector;
    SameSelectorSameGroup(groups, g, other);
  }

  lemma {:induction false} SelectorCount(out: seq<Extension>, emitted: set<string>)
    requires DistinctSelectors(out) && emitted == (set g | g in out :: g.head.selector)
    ensures |emitted| == |out|
  {
    if out != [] {
      var front, last := out[..|out| - 1], out[|out| - 1];
      var before := set g | g in front :: g.head.selector;
      SelectorCount(front, before);
      assert out == front + [last];
      assert last.head.selector !in before;
      EmitOne(front, before, last);
    }
  }

  lemma GroupSelectorsDiffer(n: Composition, groups: seq<Extension>, ids: set<string>)
    requires GroupNames(n, groups, ids)
    ensures DistinctSelectors(groups)
  {
    forall i, j | 0 <= i < j < |groups| ensures groups[i].head.selector != groups[j].head.selector {
      var prefix := n.name + ".";
      assert groups[i] in groups && groups[j] in groups;
      assert groups[i].head.selector[|prefix|..] == groups[i].head.id;
      assert groups[j].head.selector[|prefix|..] == groups[j].head.id;
    }
  }

  lemma SameSelectorSameGroup(groups: seq<Extension>, a: Extension, b: Extension)
    requires DistinctSelectors(groups) && a in groups && b in groups && a.head.selector == b.head.selector
    ensures a == b
  {
  }

  function Edges(exts: seq<Extension>): (places: seq<string>)
    ensures |places| == |exts| && forall i | 0 <= i < |exts| :: places[i] == Edge(exts[i])
  {
    seq(|exts|, i requires 0 <= i < |exts| => Edge(exts[i]))
  }

  function Ids(exts: seq<Extension>): (places: seq<string>)
    ensures |places| == |exts| && forall i | 0 <= i < |exts| :: places[i] == exts[i].head.id
  {
    seq(|exts|, i requires 0 <= i < |exts| => exts[i].head.id)
  }

  /** The selector found last at a place. */
  function LastAt(places: seq<string>, exts: seq<Extension>, place: string): Option<string>
    requires |places| == |exts|
  {
    if exts == [] then None
    else if places[|exts| - 1] == place then Some(exts[|exts| - 1].head.selector)
    else LastAt(places[..|exts| - 1], exts[..|exts| - 1], place)
  }

  /** A place counts as taken only if a selector that is not empty was found there last. */
  predicate Taken(places: seq<string>, exts: seq<Extension>, place: string)
    requires |places| == |exts|
  {
    LastAt(places, exts, place).Some? && LastAt(places, exts, place).value != ""
  }

  /** The refusal of the first contribution whose edge or stage identity is taken. */
  function PlaceRefusal(exts: seq<Extension>): Option<string> {
    if exts == [] then None
    else
      var front, last := exts[..|exts| - 1], exts[|exts| - 1];
      if PlaceRefusal(front).Some? then PlaceRefusal(front)
      else if Taken(Edges(front), front, Edge(last)) then Some(ARRANGE_REQUIRED)
      else if Taken(Ids(front), front, last.head.id) then Some(STAGE_CONFLICT)
      else None
  }

  lemma {:induction false} LastIsAt(places: seq<string>, exts: seq<Extension>, place: string)
    requires |places| == |exts|
    ensures LastAt(places, exts, place).Some? <==> place in places
    ensures LastAt(places, exts, place).Some? ==>
              exists e :: e in exts && LastAt(places, exts, place) == Some(e.head.selector)
  {
    if exts != [] {
      LastIsAt(places[..|exts| - 1], exts[..|exts| - 1], place);
      assert exts[|exts| - 1] in exts;
      assert places == places[..|exts| - 1] + [places[|exts| - 1]];
    }
  }

  ghost predicate Selected(exts: seq<Extension>) {
    forall e | e in exts :: e.head.selector != ""
  }

  lemma TakenWhen(places: seq<string>, exts: seq<Extension>, place: string)
    requires |places| == |exts|
    ensures Taken(places, exts, place) ==> place in places
    ensures Selected(exts) && place in places ==> Taken(places, exts, place)
  {
    LastIsAt(places, exts, place);
  }

  lemma OneMorePlace(front: seq<Extension>, last: Extension)
    ensures DistinctPlaces(front + [last])
       <==> DistinctPlaces(front) && Edge(last) !in Edges(front) && last.head.id !in Ids(front)
  {
    var all := front + [last];
    if DistinctPlaces(all) {
      forall i, j | 0 <= i < j < |front|
        ensures Edge(front[i]) != Edge(front[j]) && front[i].head.id != front[j].head.id {
        assert all[i] == front[i] && all[j] == front[j];
      }
      forall j | 0 <= j < |front| ensures Edges(front)[j] != Edge(last) && Ids(front)[j] != last.head.id {
        assert all[j] == front[j] && all[|front|] == last;
      }
    } else {
      var i, j :| 0 <= i < j < |all| && (Edge(all[i]) == Edge(all[j]) || all[i].head.id == all[j].head.id);
      assert j == |front| ==> Edges(front)[i] == Edge(all[i]) && Ids(front)[i] == all[i].head.id;
    }
  }

  /** Of the first `n`, number `i` is the last at this place. */
  ghost predicate IsLast(places: seq<string>, n: nat, place: string, i: nat)
    requires n <= |places|
  {
    i < n && places[i] == place && forall k | i < k < n :: places[k] != place
  }

  lemma {:induction false} TakenExactlyWhen(places: seq<string>, exts: seq<Extension>, place: string)
    requires |places| == |exts|
    ensures Taken(places, exts, place)
       <==> exists i: nat :: IsLast(places, |exts|, place, i) && exts[i].head.selector != ""
  {
    if exts != [] {
      var n := |exts| - 1;
      TakenExactlyWhen(places[..n], exts[..n], place);
      if places[n] == place {
        assert IsLast(places, n + 1, place, n);
      } else {
        forall i: nat ensures IsLast(places[..n], n, place, i) <==> IsLast(places, n + 1, place, i) { }
      }
    }
  }

  /** Whoever comes to a place finds it untouched, or last taken by a contribution with an empty selector. */
  ghost predicate Free(places: seq<string>, exts: seq<Extension>)
    requires |places| == |exts|
  {
    forall i: nat, j: nat | i < j < |exts| && IsLast(places, j, places[j], i) :: exts[i].head.selector == ""
  }

  lemma FreeGrows(places: seq<string>, exts: seq<Extension>, place: string, e: Extension)
    requires |places| == |exts|
    ensures Free(places + [place], exts + [e]) <==> Free(places, exts) && !Taken(places, exts, place)
  {
    hide Taken;
    TakenExactlyWhen(places, exts, place);
    var n, more := |exts|, places + [place];
    forall i: nat, j: nat | j <= n
      ensures IsLast(more, j, more[j], i) <==> IsLast(places, j, if j < n then places[j] else place, i)
    {
      var taken := if j < n then places[j] else place;
      assert more[j] == taken && forall k | 0 <= k < j :: more[k] == places[k];
    }
    if Taken(places, exts, place) {
      var i: nat :| IsLast(places, n, place, i) && exts[i].head.selector != "";
      assert IsLast(more, n, more[n], i) && (exts + [e])[i] == exts[i];
    }
    if !Free(places, exts) {
      var i: nat, j: nat :| i < j < n && IsLast(places, j, places[j], i) && exts[i].head.selector != "";
      assert IsLast(more, j, more[j], i) && (exts + [e])[i] == exts[i];
    }
  }

  /**
   Nothing is refused exactly if every edge and stage identity is free when it
   is taken. So a refusal means that one repeats, and if no selector is empty
   one repeats only if there is a refusal.
   */
  lemma {:induction false} PlacesAre(exts: seq<Extension>)
    ensures PlaceRefusal(exts).None? <==> Free(Edges(exts), exts) && Free(Ids(exts), exts)
    ensures PlaceRefusal(exts).Some? ==> !DistinctPlaces(exts)
    ensures Selected(exts) && PlaceRefusal(exts).None? ==> DistinctPlaces(exts)
  {
    if exts != [] {
      hide DistinctPlaces, Taken, Edges, Ids, Free;
      var front, last := exts[..|exts| - 1], exts[|exts| - 1];
      PlacesAre(front);
      assert exts == front + [last];
      PlacesGrow(front, last);
      FreeGrows(Edges(front), front, Edge(last), last);
      FreeGrows(Ids(front), front, last.head.id, last);
      TakenWhen(Edges(front), front, Edge(last));
      TakenWhen(Ids(front), front, last.head.id);
      OneMorePlace(front, last);
    } else {
      assert DistinctPlaces([]);
    }
  }

  lemma {:induction false} PlaceRefusalStays(exts: seq<Extension>, i: nat)
    requires i <= |exts| && PlaceRefusal(exts[..i]).Some?
    ensures PlaceRefusal(exts) == PlaceRefusal(exts[..i])
  {
    if i < |exts| {
      assert exts[..|exts| - 1][..i] == exts[..i];
      PlaceRefusalStays(exts[..|exts| - 1], i);
    } else {
      assert exts[..i] == exts;
    }
  }

  /** The map of places visited knows the last selector of each. */
  ghost predicate Records(seen: map<string, string>, places: seq<string>, exts: seq<Extension>)
    requires |places| == |exts|
  {
    forall place :: LastAt(places, exts, place) == if place in seen then Some(seen[place]) else None
  }

  lemma RecordOne(seen: map<string, string>, places: seq<string>, exts: seq<Extension>, place: string, e: Extension)
    requires |places| == |exts| && Records(seen, places, exts)
    ensures Records(seen[place := e.head.selector], places + [place], exts + [e])
  {
    assert (places + [place])[..|exts|] == places && (exts + [e])[..|exts|] == exts;
  }

  /** Refuse two contributions that share an edge or a stage identity. */
  method CheckPlaces(exts: seq<Extension>) returns (r: Result<()>)
    ensures r.Refused? <==> PlaceRefusal(exts).Some?
    ensures r.Refused? ==> PlaceRefusal(exts) == Some(r.code)
  {
    hide Records, LastAt, Edges, Ids;
    var edges: map<string, string>, ids: map<string, string> := map[], map[];
    NoneRecorded(exts);
    for i := 0 to |exts|
      invariant PlaceRefusal(exts[..i]).None?
      invariant Records(edges, Edges(exts[..i]), exts[..i]) && Records(ids, Ids(exts[..i]), exts[..i])
    {
      var e := exts[i];
      ghost var before := exts[..i];
      assert exts[..i + 1] == before + [e] && exts[..i + 1][..i] == before;
      TakenIs(edges, Edges(before), before, Edge(e));
      TakenIs(ids, Ids(before), before, e.head.id);
      if Edge(e) in edges && edges[Edge(e)] != "" {
        PlaceRefusalStays(exts, i + 1);
        return Refused(ARRANGE_REQUIRED);
      }
      if e.head.id in ids && ids[e.head.id] != "" {
        PlaceRefusalStays(exts, i + 1);
        return Refused(STAGE_CONFLICT);
      }
      RecordOne(edges, Edges(before), before, Edge(e), e);
      RecordOne(ids, Ids(before), before, e.head.id, e);
      PlacesGrow(before, e);
      edges, ids := edges[Edge(e) := e.head.selector], ids[e.head.id := e.head.selector];
    }
    assert exts[..|exts|] == exts;
    return Ok(());
  }

  lemma NoneRecorded(exts: seq<Extension>)
    ensures Records(map[], Edges(exts[..0]), exts[..0]) && Records(map[], Ids(exts[..0]), exts[..0])
  {
  }

  lemma TakenIs(seen: map<string, string>, places: seq<string>, exts: seq<Extension>, place: string)
    requires |places| == |exts| && Records(seen, places, exts)
    ensures Taken(places, exts, place) <==> place in seen && seen[place] != ""
  {
  }

  lemma PlacesGrow(exts: seq<Extension>, e: Extension)
    ensures Edges(exts + [e]) == Edges(exts) + [Edge(e)] && Ids(exts + [e]) == Ids(exts) + [e.head.id]
  {
  }

  /** What arranging a node comes to. There is no refusal for a lost group. */
  ghost function Arrangement(n: Composition): Result<seq<Extension>> {
    if !DistinctSelectors(n.extensions) then Refused(DUPLICATE)
    else
      var read :- ReadAll(n, Index(n.extensions), n.groups);
      ReadingsAreGroups(n, Index(n.extensions), n.groups);
      var grouped := Emission(n.extensions, read.groups, read.used).0;
      var origins :- ValidateMembers(grouped, 0, {});
      match PlaceRefusal(grouped)
      case Some(code) => Refused(code)
      case None => Ok(grouped)
  }

  lemma {:induction false} ReadingsAreGroups(n: Composition, contributions: map<string, Extension>, raws: seq<Json>)
    ensures ReadAll(n, contributions, raws).Ok? ==>
              forall g | g in ReadAll(n, contributions, raws).value.groups :: g.Group?
  {
    if raws != [] && ReadAll(n, contributions, raws).Ok? {
      hide ReadDeclaration, DeclarationShaped;
      ReadingsAreGroups(n, contributions, raws[..|raws| - 1]);
      var before := ReadAll(n, contributions, raws[..|raws| - 1]).value;
      DeclarationReadsExactlyWhen(n, contributions, raws[|raws| - 1], before.ids, before.used);
    }
  }

  /**
   Arrange the contributions of a node: exactly what is specified, refusals
   included, and it keeps every contribution.
   */
  method Arrange(n: Composition) returns (r: Result<seq<Extension>>)
    ensures r == Arrangement(n)
    ensures r.Ok? ==> Arranged(n, ReadAll(n, Index(n.extensions), n.groups).value, r.value)
  {
    hide ReadAll, Emission, EmittedSoFar, Emitting, PlaceRefusal, InOrder, ReadSoFar, Indexes;
    var indexed := IndexContributions(n.extensions);
    if indexed.Refused? {
      return Refused(indexed.code);
    }
    var contributions := indexed.value;
    IndexHasSelectors(contributions, n.extensions);
    var read := ReadGroups(n, contributions);
    if read.Refused? {
      return Refused(read.code);
    }
    var Readings(groups, used, ids) := read.value;
    ReadingsAreGroups(n, contributions, n.groups);
    ReadAllHolds(n, contributions, n.groups);
    var grouped, emitted;
    ghost var out;
    grouped, emitted, out := Emit(n.extensions, groups, used);
    AllEmitted(n, contributions, groups, used, ids, grouped, emitted, out);
    if |emitted| != |groups| {
      assert false;
    }
    var valid := ValidateMembers(grouped, 0, {});
    if valid.Refused? {
      return Refused(valid.code);
    }
    var places := CheckPlaces(grouped);
    if places.Refused? {
      return Refused(places.code);
    }
    ArrangedHolds(n, contributions, read.value, grouped);
    return Ok(grouped);
  }

  lemma IndexHasSelectors(contributions: map<string, Extension>, exts: seq<Extension>)
    requires Indexes(contributions, exts)
    ensures forall s | s in contributions :: HasSelector(contributions, s)
  {
  }

  lemma AllEmitted(n: Composition, contributions: map<string, Extension>, groups: seq<Extension>, used: seq<string>,
                   ids: set<string>, grouped: seq<Extension>, emitted: set<string>, out: seq<Extension>)
    requires Indexes(contributions, n.extensions) && ReadSoFar(n, contributions, n.groups, groups, used, ids)
    requires EmittedSoFar(n.extensions, groups, used, grouped, emitted, out)
    ensures |emitted| == |groups| && multiset(grouped) == multiset(groups) + multiset(Unused(n.extensions, used))
  {
    EveryGroupEmitted(n, contributions, groups, used, ids, emitted, out);
  }

  /** Grouping keeps the leaves: those of the groups are those of the contributions they consumed. */
  lemma LeavesKept(contributions: map<string, Extension>, exts: seq<Extension>, groups: seq<Extension>,
                   used: seq<string>, grouped: seq<Extension>)
    requires Indexes(contributions, exts) && DistinctSelectors(exts)
    requires Distinct(used) && (forall s | s in used :: s in contributions)
    requires LeavesOf(groups) == LeavesOf(Named(contributions, used))
    requires multiset(grouped) == multiset(groups) + multiset(Unused(exts, used))
    ensures multiset(LeavesOf(grouped)) == multiset(LeavesOf(exts))
  {
    var unused, named := Unused(exts, used), Named(contributions, used);
    UsedAndUnused(contributions, exts, used);
    assert multiset(grouped) == multiset(unused + groups);
    LeavesPermute(grouped, unused + groups);
    LeavesJoin(unused, groups);
    LeavesPermute(unused + named, exts);
    LeavesJoin(unused, named);
  }

  lemma WellFormedKept(exts: seq<Extension>, groups: seq<Extension>, used: seq<string>, grouped: seq<Extension>)
    requires DistinctSelectors(exts) && (forall e | e in exts :: WellFormed(e))
             && (forall g | g in groups :: WellFormed(g))
    requires multiset(grouped) == multiset(groups) + multiset(Unused(exts, used))
    ensures forall e | e in grouped :: WellFormed(e)
  {
    UnusedAre(exts, used);
    forall e | e in grouped ensures WellFormed(e) {
      assert e in multiset(grouped);
      assert e in groups || e in Unused(exts, used);
    }
  }

  lemma ArrangedHolds(n: Composition, contributions: map<string, Extension>, read: Readings, grouped: seq<Extension>)
    requires DistinctSelectors(n.extensions) && contributions == Index(n.extensions)
             && Indexes(contributions, n.extensions)
    requires ReadSoFar(n, contributions, n.groups, read.groups, read.used, read.ids)
    requires multiset(grouped) == multiset(read.groups) + multiset(Unused(n.extensions, read.used))
    requires InOrder(n.extensions, read.groups, read.used, grouped, |n.extensions|)
    requires ValidateMembers(grouped, 0, {}).Ok? && PlaceRefusal(grouped).None?
    ensures Arranged(n, read, grouped)
  {
    hide InOrder, Took, DeclaredAs, AllReached, GroupNames, PlaceRefusal, Indexes, Within, Sources, LeavesOf,
         DistinctPlaces, WellFormed, Unused, Index, DistinctSelectors, ValidateMembers, HasSelector, Named;
    ValidatedAre(grouped, 0, {});
    assert Distinct(Sources(LeavesOf(grouped)));
    PlacesAre(grouped);
    TookFromNothing(contributions, read.used, read.groups);
    LeavesKept(contributions, n.extensions, read.groups, read.used, grouped);
    if forall e | e in n.extensions :: WellFormed(e) {
      IndexedWellFormed(contributions, n.extensions);
      WellFormedKept(n.extensions, read.groups, read.used, grouped);
    }
  }

  lemma IndexedWellFormed(contributions: map<string, Extension>, exts: seq<Extension>)
    requires Indexes(contributions, exts) && forall e | e in exts :: WellFormed(e)
    ensures forall s | s in contributions :: WellFormed(contributions[s])
  {
  }

  lemma TookFromNothing(contributions: map<string, Extension>, used: seq<string>, groups: seq<Extension>)
    requires Took(contributions, [], used, groups)
    ensures Distinct(used) && (forall s | s in used :: s in contributions)
    ensures LeavesOf(groups) == LeavesOf(Named(contributions, used))
    ensures (forall s | s in contributions :: WellFormed(contributions[s])) ==> forall e | e in groups :: WellFormed(e)
  {
    assert used[0..] == used;
  }
}
