/** Resolving each option entry over the ancestry of a composition. */
module OptionResolution {
  import opened Prelude
  import opened CompositionOptions

  /** A composition node: its key, the keys of everything it inherits from (itself included), and its own options. */
  datatype Node = Node(key: string, ancestors: set<string>, rootName: string, own: Options)

  datatype Declaration = Declaration(owner: Node, value: Json)

  const CONFLICT := "project_composition_setting_conflict"
  const OVERLAP := "project_composition_reference_conflict"
  const CYCLE := "project_composition_cycle"

  /** The owners are a node with everything it inherits from; inheriting is an order on them. */
  ghost predicate IsAncestry(node: Node, owners: seq<Node>) {
    && (forall i, j | 0 <= i < j < |owners| :: owners[i].key != owners[j].key)
    && node in owners
    && (forall a | a in owners :: a.key in a.ancestors && a.key in node.ancestors)
    && (forall a, b | a in owners && b in owners :: a.key in b.ancestors && b.key in a.ancestors ==> a == b)
    && forall a, b, d | a in owners && b in owners && d in owners :: a.key in b.ancestors && b.key in d.ancestors ==>
       a.key in d.ancestors
  }

  /** `other` inherits from the owner of `current`, so its declaration takes precedence. */
  predicate Shadows(other: Declaration, current: Declaration) {
    current.owner.key != other.owner.key && current.owner.key in other.owner.ancestors
  }

  predicate IsMaximal(declared: seq<Declaration>, current: Declaration) {
    forall other | other in declared :: !Shadows(other, current)
  }

  function MaximalAmong(declared: seq<Declaration>, all: seq<Declaration>): seq<Declaration> {
    if declared == [] then []
    else MaximalAmong(declared[..|declared| - 1], all)
         + if IsMaximal(all, declared[|declared| - 1]) then [declared[|declared| - 1]] else []
  }

  lemma {:induction false} MaximalAmongAre(declared: seq<Declaration>, all: seq<Declaration>)
    ensures forall d :: d in MaximalAmong(declared, all) <==> d in declared && IsMaximal(all, d)
  {
    if declared != [] {
      var front, last := declared[..|declared| - 1], declared[|declared| - 1];
      MaximalAmongAre(front, all);
      assert declared == front + [last];
    }
  }

  // ----- References ------------------------------------------------------------------------

  /** The inherited declarations: those of other owners, in order. */
  function Inherited(node: Node, declared: seq<Declaration>): seq<Declaration> {
    if declared == [] then []
    else Inherited(node, declared[..|declared| - 1])
         + if declared[|declared| - 1].owner == node then [] else [declared[|declared| - 1]]
  }

  predicate ConsecutiveAgree(ds: seq<Declaration>) {
    forall i, j | 0 <= i < |ds| && 0 <= j < |ds| && j == i + 1 :: ds[i].value == ds[j].value
  }

  /** Comparing each declaration with the next is enough for all to agree. */
  lemma {:induction false} ConsecutiveIsAll(ds: seq<Declaration>, i: nat, j: nat)
    requires ConsecutiveAgree(ds) && i <= j < |ds|
    ensures ds[i].value == ds[j].value
    decreases j - i
  {
    if i < j {
      ConsecutiveIsAll(ds, i + 1, j);
      assert ds[i].value == ds[i + 1].value;
    }
  }

  lemma {:induction false} InheritedAre(node: Node, declared: seq<Declaration>)
    ensures forall d :: d in Inherited(node, declared) <==> d in declared && d.owner != node
  {
    if declared != [] {
      var front, last := declared[..|declared| - 1], declared[|declared| - 1];
      InheritedAre(node, front);
      assert declared == front + [last];
    }
  }

  predicate DeclaresOwn(node: Node, declared: seq<Declaration>) {
    exists d :: d in declared && d.owner == node
  }

  /** References must be unique: inherited ones agree, and the consumer repeats none. */
  function CheckReference(node: Node, declared: seq<Declaration>): Result<()> {
    var inherited := Inherited(node, declared);
    if !ConsecutiveAgree(inherited) then Refused(CONFLICT)
    else if DeclaresOwn(node, declared) && inherited != [] then Refused(OVERLAP)
    else Ok(())
  }

  // ----- One entry ---------------------------------------------------------------------------

  function PickWinner(maximal: seq<Declaration>): Result<Json> {
    if maximal == [] then Refused(CYCLE)
    else if forall d | d in maximal :: d.value == maximal[0].value then Ok(maximal[0].value)
    else Refused(CONFLICT)
  }

  /** The value of one entry, given all its declarations in order. */
  function ResolveKey(node: Node, reference: bool, declared: seq<Declaration>): Result<Json> {
    if reference && CheckReference(node, declared).Refused? then Refused(CheckReference(node, declared).code)
    else PickWinner(MaximalAmong(declared, declared))
  }

  /** Some declaration of another owner comes from one that inherits from this one's. */
  ghost predicate Overridden(declared: seq<Declaration>, d: Declaration) {
    exists i :: 0 <= i < |declared| && declared[i].owner.key != d.owner.key
                && d.owner.key in declared[i].owner.ancestors
  }

  /** An entry other than a reference has the value on which all declarations agree that are not overridden. */
  lemma ResolvesExactlyWhen(node: Node, declared: seq<Declaration>)
    ensures forall v :: ResolveKey(node, false, declared) == Ok(v) <==>
              && (exists d :: d in declared && !Overridden(declared, d))
              && forall d | d in declared && !Overridden(declared, d) :: d.value == v
    ensures (forall d | d in declared :: Overridden(declared, d)) ==>
              ResolveKey(node, false, declared) == Refused("project_composition_cycle")
    ensures (exists d, e :: d in declared && e in declared && !Overridden(declared, d) && !Overridden(declared, e)
                            && d.value != e.value) ==>
              ResolveKey(node, false, declared) == Refused("project_composition_setting_conflict")
  {
    MaximalAmongAre(declared, declared);
    var maximal := MaximalAmong(declared, declared);
    forall d | d in declared ensures d in maximal <==> !Overridden(declared, d) {
      if Overridden(declared, d) {
        var i :| 0 <= i < |declared| && declared[i].owner.key != d.owner.key
                 && d.owner.key in declared[i].owner.ancestors;
        assert declared[i] in declared && Shadows(declared[i], d);
      } else {
        forall other | other in declared ensures !Shadows(other, d) {
          var i :| 0 <= i < |declared| && declared[i] == other;
        }
      }
    }
    if maximal != [] { assert maximal[0] in maximal; }
  }

  /** A reference whose inherited declarations differ is in conflict, and so is one the consumer repeats. */
  lemma ReferenceRefused(node: Node, declared: seq<Declaration>)
    ensures !InheritedAgree(node, declared) ==>
              ResolveKey(node, true, declared) == Refused("project_composition_setting_conflict")
    ensures InheritedAgree(node, declared) && DeclaresOwn(node, declared) && SomeInherited(node, declared) ==>
              ResolveKey(node, true, declared) == Refused("project_composition_reference_conflict")
  {
    InheritedAre(node, declared);
    var inherited := Inherited(node, declared);
    if ConsecutiveAgree(inherited) {
      forall d, e | d in inherited && e in inherited ensures d.value == e.value {
        var i :| 0 <= i < |inherited| && inherited[i] == d;
        var j :| 0 <= j < |inherited| && inherited[j] == e;
        ConsecutiveIsAll(inherited, if i <= j then i else j, if i <= j then j else i);
      }
    } else {
      var i, j :| 0 <= i < |inherited| && 0 <= j < |inherited| && j == i + 1
                  && inherited[i].value != inherited[j].value;
      assert inherited[i] in inherited && inherited[j] in inherited;
    }
  }

  ghost predicate DistinctOwners(declared: seq<Declaration>) {
    forall i, j | 0 <= i < j < |declared| :: declared[i].owner != declared[j].owner
  }

  ghost predicate DeclaredBy(node: Node, owners: seq<Node>, declared: seq<Declaration>) {
    && IsAncestry(node, owners)
    && (forall d | d in declared :: d.owner in owners)
    && DistinctOwners(declared)
  }

  /** How many declarations an owner inherits from. */
  ghost function Above(declared: seq<Declaration>, d: Declaration): set<string> {
    set i | 0 <= i < |declared| && d.owner.key in declared[i].owner.ancestors :: declared[i].owner.key
  }

  /** Climbing from any declaration ends at a maximal one. */
  lemma {:induction false} SomeMaximal(node: Node, owners: seq<Node>, declared: seq<Declaration>,
                                       d: Declaration) returns (m: Declaration)
    requires DeclaredBy(node, owners, declared) && d in declared
    ensures m in declared && IsMaximal(declared, m) && d.owner.key in m.owner.ancestors
    decreases |Above(declared, d)|
  {
    if IsMaximal(declared, d) {
      m := d;
    } else {
      var other :| other in declared && Shadows(other, d);
      forall key | key in Above(declared, other) ensures key in Above(declared, d) && key != d.owner.key {
        var i :| 0 <= i < |declared| && other.owner.key in declared[i].owner.ancestors && declared[i].owner.key == key;
        assert declared[i] in declared;
      }
      assert d.owner.key in Above(declared, d);
      assert Above(declared, other) <= Above(declared, d) - {d.owner.key};
      SubsetSize(Above(declared, other), Above(declared, d) - {d.owner.key});
      m := SomeMaximal(node, owners, declared, other);
    }
  }

  /** A declared entry always has a maximal declaration: the cycle refusal cannot happen. */
  lemma MaximalExists(node: Node, owners: seq<Node>, declared: seq<Declaration>)
    requires DeclaredBy(node, owners, declared) && declared != []
    ensures MaximalAmong(declared, declared) != []
  {
    MaximalAmongAre(declared, declared);
    var m := SomeMaximal(node, owners, declared, declared[0]);
  }

  /**
   An entry that is not a reference resolves to a value exactly when all its
   maximal declarations have that value, and is refused exactly when two of
   them disagree.
   */
  lemma ResolvedIsMaximal(node: Node, owners: seq<Node>, declared: seq<Declaration>, v: Json)
    requires DeclaredBy(node, owners, declared) && declared != []
    ensures var r := ResolveKey(node, false, declared);
            && (r == Ok(v) <==> forall d | d in declared && IsMaximal(declared, d) :: d.value == v)
            && (r == Refused(CONFLICT) <==>
                  exists a, b :: a in declared && b in declared && IsMaximal(declared, a)
                    && IsMaximal(declared, b) && a.value != b.value)
            && (r.Ok? || r == Refused(CONFLICT))
  {
    MaximalAmongAre(declared, declared);
    MaximalExists(node, owners, declared);
    var maximal := MaximalAmong(declared, declared);
    assert maximal[0] in maximal;
  }

  /** The consumer inherits from every other owner, so its declaration shadows theirs. */
  lemma OthersShadowed(node: Node, owners: seq<Node>, declared: seq<Declaration>, own: Declaration, d: Declaration)
    requires DeclaredBy(node, owners, declared) && own in declared && own.owner == node && d in declared && d != own
    ensures Shadows(own, d)
  {
    var i :| 0 <= i < |declared| && declared[i] == d;
    var j :| 0 <= j < |declared| && declared[j] == own;
    assert d.owner != own.owner;
  }

  /** The consumer's own declaration decides. */
  lemma OwnDeclarationWins(node: Node, owners: seq<Node>, declared: seq<Declaration>, own: Declaration)
    requires DeclaredBy(node, owners, declared) && own in declared && own.owner == node
    ensures ResolveKey(node, false, declared) == Ok(own.value)
  {
    hide DeclaredBy, ResolveKey;
    ResolvedIsMaximal(node, owners, declared, own.value);
    forall d | d in declared && IsMaximal(declared, d) ensures d.value == own.value {
      if d != own { OthersShadowed(node, owners, declared, own, d); }
    }
  }

  ghost predicate InheritedAgree(node: Node, declared: seq<Declaration>) {
    forall a, b | a in declared && b in declared && a.owner != node && b.owner != node :: a.value == b.value
  }

  ghost predicate SomeInherited(node: Node, declared: seq<Declaration>) {
    exists d :: d in declared && d.owner != node
  }

  lemma ConsecutiveDecides(node: Node, declared: seq<Declaration>)
    ensures ConsecutiveAgree(Inherited(node, declared)) <==> InheritedAgree(node, declared)
    ensures Inherited(node, declared) != [] <==> SomeInherited(node, declared)
  {
    var inherited := Inherited(node, declared);
    InheritedAre(node, declared);
    if ConsecutiveAgree(inherited) {
      forall a, b | a in inherited && b in inherited ensures a.value == b.value {
        var i :| 0 <= i < |inherited| && inherited[i] == a;
        var j :| 0 <= j < |inherited| && inherited[j] == b;
        if i <= j { ConsecutiveIsAll(inherited, i, j); } else { ConsecutiveIsAll(inherited, j, i); }
      }
    } else {
      var i :| 0 <= i < |inherited| - 1 && inherited[i].value != inherited[i + 1].value;
      assert inherited[i] in inherited && inherited[i + 1] in inherited;
    }
    if inherited != [] { assert inherited[0] in inherited; }
  }

  lemma CheckedAgree(node: Node, owners: seq<Node>, declared: seq<Declaration>)
    requires DeclaredBy(node, owners, declared) && InheritedAgree(node, declared)
    requires !(DeclaresOwn(node, declared) && SomeInherited(node, declared))
    ensures forall a, b | a in declared && b in declared :: a.value == b.value
  {
    forall a, b | a in declared && b in declared ensures a.value == b.value {
      if a.owner == node {
        assert b.owner == node;
        var i :| 0 <= i < |declared| && declared[i] == a;
        var j :| 0 <= j < |declared| && declared[j] == b;
      }
    }
  }

  /**
   A reference resolves exactly when no two inherited declarations disagree
   and the consumer does not declare it beside an inherited one; then every
   declaration has the resolved value.
   */
  lemma ReferenceResolves(node: Node, owners: seq<Node>, declared: seq<Declaration>)
    requires DeclaredBy(node, owners, declared) && declared != []
    ensures var r := ResolveKey(node, true, declared);
            && (r.Ok? <==>
                  InheritedAgree(node, declared) && !(DeclaresOwn(node, declared) && SomeInherited(node, declared)))
            && (r.Ok? ==> forall d | d in declared :: d.value == r.value)
  {
    ConsecutiveDecides(node, declared);
    if CheckReference(node, declared).Ok? {
      CheckedAgree(node, owners, declared);
      MaximalAmongAre(declared, declared);
      MaximalExists(node, owners, declared);
      var maximal := MaximalAmong(declared, declared);
      assert maximal[0] in maximal && maximal[0] in declared;
    }
  }

  // ----- The loops -------------------------------------------------------------------------------

  method FindMaximal(declared: seq<Declaration>) returns (maximal: seq<Declaration>)
    ensures maximal == MaximalAmong(declared, declared)
  {
    maximal := [];
    for i := 0 to |declared|
      invariant maximal == MaximalAmong(declared[..i], declared)
    {
      assert declared[..i + 1][..i] == declared[..i];
      var shadowed := false;
      for j := 0 to |declared|
        invariant !shadowed ==> forall other | other in declared[..j] :: !Shadows(other, declared[i])
        invariant shadowed ==> !IsMaximal(declared, declared[i])
      {
        assert declared[..j + 1] == declared[..j] + [declared[j]];
        if Shadows(declared[j], declared[i]) {
          assert declared[j] in declared;
          shadowed := true;
          break;
        }
      }
      assert declared[..|declared|] == declared;
      if !shadowed {
        maximal := maximal + [declared[i]];
      }
    }
    assert declared[..|declared|] == declared;
  }

  /** The consecutive comparison so far: the last inherited declaration, and whether the consumer declares too. */
  ghost predicate Compared(node: Node, declared: seq<Declaration>, previous: Option<Declaration>, own: bool) {
    var seen := Inherited(node, declared);
    && ConsecutiveAgree(seen) && previous == (if seen == [] then None else Some(seen[|seen| - 1]))
    && (own <==> DeclaresOwn(node, declared))
  }

  lemma InheritedNext(node: Node, declared: seq<Declaration>, i: nat)
    requires i < |declared|
    ensures Inherited(node, declared[..i + 1]) == Inherited(node, declared[..i])
            + if declared[i].owner == node then [] else [declared[i]]
    ensures DeclaresOwn(node, declared[..i + 1]) <==> DeclaresOwn(node, declared[..i]) || declared[i].owner == node
  {
    assert declared[..i + 1] == declared[..i] + [declared[i]];
  }

  lemma AgreeNext(ds: seq<Declaration>, d: Declaration)
    requires ConsecutiveAgree(ds)
    ensures ConsecutiveAgree(ds + [d]) <==> ds == [] || ds[|ds| - 1].value == d.value
  {
    if ds != [] {
      assert (ds + [d])[|ds| - 1] == ds[|ds| - 1] && (ds + [d])[|ds|] == d;
    }
  }

  lemma AgreePrefix(prefix: seq<Declaration>, ds: seq<Declaration>)
    requires prefix <= ds && ConsecutiveAgree(ds)
    ensures ConsecutiveAgree(prefix)
  {
    forall i, j | 0 <= i < |prefix| && 0 <= j < |prefix| && j == i + 1 ensures prefix[i].value == prefix[j].value {
      assert prefix[i] == ds[i] && prefix[j] == ds[j];
    }
  }

  lemma ComparedGrows(node: Node, declared: seq<Declaration>, i: nat, previous: Option<Declaration>, own: bool)
    requires i < |declared| && Compared(node, declared[..i], previous, own)
    ensures declared[i].owner == node ==> Compared(node, declared[..i + 1], previous, true)
    ensures declared[i].owner != node && (previous.None? || previous.value.value == declared[i].value) ==>
              Compared(node, declared[..i + 1], Some(declared[i]), own)
    ensures declared[i].owner != node && previous.Some? && previous.value.value != declared[i].value ==>
              !ConsecutiveAgree(Inherited(node, declared))
  {
    hide ConsecutiveAgree, DeclaresOwn, Inherited;
    InheritedNext(node, declared, i);
    if declared[i].owner == node {
      assert Inherited(node, declared[..i + 1]) == Inherited(node, declared[..i]);
    }
    AgreeNext(Inherited(node, declared[..i]), declared[i]);
    InheritedPrefix(node, declared, i + 1);
    if ConsecutiveAgree(Inherited(node, declared)) {
      AgreePrefix(Inherited(node, declared[..i + 1]), Inherited(node, declared));
    }
  }

  method CheckReferences(node: Node, declared: seq<Declaration>) returns (r: Result<()>)
    ensures r == CheckReference(node, declared)
  {
    hide ConsecutiveAgree, DeclaresOwn;
    var previous: Option<Declaration> := None;
    var own := false;
    NoneCompared(node, declared);
    for i := 0 to |declared|
      invariant Compared(node, declared[..i], previous, own)
    {
      var current := declared[i];
      ComparedGrows(node, declared, i, previous, own);
      if current.owner == node {
        own := true;
      } else {
        if previous.Some? && previous.value.value != current.value {
          return Refused(CONFLICT);
        }
        previous := Some(current);
      }
    }
    assert declared[..|declared|] == declared;
    if own && previous.Some? {
      return Refused(OVERLAP);
    }
    return Ok(());
  }

  lemma NoneCompared(node: Node, declared: seq<Declaration>)
    ensures Compared(node, declared[..0], None, false)
  {
  }

  lemma {:induction false} InheritedPrefix(node: Node, declared: seq<Declaration>, i: nat)
    requires i <= |declared|
    ensures Inherited(node, declared[..i]) <= Inherited(node, declared)
  {
    if i < |declared| {
      assert declared[..|declared| - 1][..i] == declared[..i];
      InheritedPrefix(node, declared[..|declared| - 1], i);
    } else {
      assert declared[..i] == declared;
    }
  }

  method ResolveEntry(node: Node, reference: bool, declared: seq<Declaration>) returns (r: Result<Json>)
    ensures r == ResolveKey(node, reference, declared)
  {
    if reference {
      var check := CheckReferences(node, declared);
      if check.Refused? {
        return Refused(check.code);
      }
    }
    var maximal := FindMaximal(declared);
    if maximal == [] {
      return Refused(CYCLE);
    }
    for i := 1 to |maximal|
      invariant forall j | 0 <= j < i :: maximal[j].value == maximal[0].value
    {
      if maximal[i].value != maximal[0].value {
        assert maximal[i] in maximal;
        return Refused(CONFLICT);
      }
    }
    return Ok(maximal[0].value);
  }

  /** The declarations of one entry, in the order of the owners. */
  function DeclarationsOf(owners: seq<Node>, split: seq<map<OptionKey, Json>>, k: OptionKey): seq<Declaration>
    requires |split| == |owners|
  {
    if owners == [] then []
    else DeclarationsOf(owners[..|owners| - 1], split[..|owners| - 1], k)
         + if k in split[|owners| - 1] then [Declaration(owners[|owners| - 1], split[|owners| - 1][k])] else []
  }

  lemma {:induction false} DeclarationsAre(owners: seq<Node>, split: seq<map<OptionKey, Json>>, k: OptionKey)
    requires |split| == |owners|
    ensures forall d | d in DeclarationsOf(owners, split, k) ::
              exists i :: 0 <= i < |owners| && d.owner == owners[i] && k in split[i] && d.value == split[i][k]
    ensures forall i | 0 <= i < |owners| && k in split[i] ::
              Declaration(owners[i], split[i][k]) in DeclarationsOf(owners, split, k)
  {
    if owners != [] {
      var n := |owners| - 1;
      DeclarationsAre(owners[..n], split[..n], k);
      forall i | 0 <= i < |owners| && k in split[i]
        ensures Declaration(owners[i], split[i][k]) in DeclarationsOf(owners, split, k) {
        if i < n { assert Declaration(owners[..n][i], split[..n][i][k]) in DeclarationsOf(owners[..n], split[..n], k); }
      }
      forall d | d in DeclarationsOf(owners, split, k)
        ensures exists i :: 0 <= i < |owners| && d.owner == owners[i] && k in split[i] && d.value == split[i][k]
      {
        if d in DeclarationsOf(owners[..n], split[..n], k) {
          var i :| 0 <= i < n && d.owner == owners[..n][i] && k in split[..n][i] && d.value == split[..n][i][k];
          assert d.owner == owners[i];
        }
      }
    }
  }

  /** Each owner declares an entry at most once. */
  lemma {:induction false} DeclarationsDistinct(node: Node, owners: seq<Node>, split: seq<map<OptionKey, Json>>,
                                                k: OptionKey)
    requires |split| == |owners| && forall i, j | 0 <= i < j < |owners| :: owners[i].key != owners[j].key
    ensures DistinctOwners(DeclarationsOf(owners, split, k))
  {
    if owners != [] {
      var n := |owners| - 1;
      DeclarationsDistinct(node, owners[..n], split[..n], k);
      DeclarationsAre(owners[..n], split[..n], k);
      var ds, front := DeclarationsOf(owners, split, k), DeclarationsOf(owners[..n], split[..n], k);
      assert DistinctOwners(front);
      forall i, j | 0 <= i < j < |ds| ensures ds[i].owner != ds[j].owner {
        assert ds[i] == front[i] && front[i] in front;
        if j < |front| {
          assert ds[j] == front[j] && front[i].owner != front[j].owner;
        } else {
          var x :| 0 <= x < n && front[i].owner == owners[..n][x];
          assert ds[j].owner == owners[n] && ds[i].owner == owners[x] && owners[x].key != owners[n].key;
        }
      }
    }
  }

  /** What resolving a node's options must give for one entry. */
  ghost predicate EntryResolved(node: Node, owners: seq<Node>, split: seq<map<OptionKey, Json>>, o: Options,
                                k: OptionKey)
    requires |split| == |owners|
  {
    var declared := DeclarationsOf(owners, split, k);
    if declared == [] then Get(o, k) == None
    else
      && ResolveKey(node, k.Reference?, declared).Ok?
      && Get(o, k) == Some(ResolveKey(node, k.Reference?, declared).value)
  }

  ghost predicate AllResolved(node: Node, owners: seq<Node>, split: seq<map<OptionKey, Json>>, o: Options)
    requires |split| == |owners|
  {
    forall k :: EntryResolved(node, owners, split, o, k)
  }

  /** Every owner's entries, split under the composed root. */
  ghost predicate SplitOk(node: Node, owners: seq<Node>, split: seq<map<OptionKey, Json>>) {
    |split| == |owners|
    && forall i | 0 <= i < |owners| :: AreEntries(owners[i].own, owners[i].rootName, node.rootName, split[i])
  }

  lemma SplitFits(node: Node, owners: seq<Node>, split: seq<map<OptionKey, Json>>, i: nat, k: OptionKey)
    requires SplitOk(node, owners, split) && i < |owners| && k in split[i]
    ensures Fits(k, split[i][k])
  {
    var from :| Get(owners[i].own, from) == Some(split[i][k]) && Renamed(from, owners[i].rootName, node.rootName) == k;
  }

  lemma ResolvedFits(node: Node, owners: seq<Node>, split: seq<map<OptionKey, Json>>, k: OptionKey)
    requires SplitOk(node, owners, split) && ResolveKey(node, k.Reference?, DeclarationsOf(owners, split, k)).Ok?
    ensures Fits(k, ResolveKey(node, k.Reference?, DeclarationsOf(owners, split, k)).value)
  {
    var declared := DeclarationsOf(owners, split, k);
    MaximalAmongAre(declared, declared);
    var maximal := MaximalAmong(declared, declared);
    assert maximal[0] in maximal;
    DeclarationsAre(owners, split, k);
    var i :| 0 <= i < |owners| && maximal[0].owner == owners[i] && k in split[i] && maximal[0].value == split[i][k];
    SplitFits(node, owners, split, i, k);
  }

  /** Layer `i` is the last one with this key. */
  ghost predicate LastWith(layers: seq<map<string, Json>>, k: string, i: nat) {
    i < |layers| && k in layers[i] && forall j | i < j < |layers| :: k !in layers[j]
  }

  /** A key is bound exactly if some layer binds it, and as the last such layer does. */
  ghost predicate Layered(layers: seq<map<string, Json>>, merged: map<string, Json>) {
    && (forall k | k in merged :: exists i: nat :: LastWith(layers, k, i))
    && forall k, i: nat | LastWith(layers, k, i) :: k in merged && merged[k] == layers[i][k]
  }

  /** The bindings of a node: its own win over those of any parent, and a later parent's over an earlier one's. */
  ghost predicate BoundOver(parents: seq<map<string, Json>>, own: map<string, Json>, merged: map<string, Json>) {
    && (forall k | k in own :: k in merged && merged[k] == own[k])
    && (forall k, i: nat | k !in own && LastWith(parents, k, i) :: k in merged && merged[k] == parents[i][k])
    && forall k | k in merged :: k in own || exists i: nat :: LastWith(parents, k, i)
  }

  lemma LayeredOver(layers: seq<map<string, Json>>, merged: map<string, Json>, top: map<string, Json>)
    requires Layered(layers, merged)
    ensures Layered(layers + [top], merged + top)
  {
    var more := layers + [top];
    forall k | k in merged + top ensures exists i: nat :: LastWith(more, k, i) {
      if k in top {
        assert LastWith(more, k, |layers|);
      } else {
        var i: nat :| LastWith(layers, k, i);
        assert LastWith(more, k, i);
      }
    }
    forall k, i: nat | LastWith(more, k, i) ensures k in merged + top && (merged + top)[k] == more[i][k] {
      if i < |layers| {
        assert more[|layers|] == top;
        assert forall j | i < j < |layers| :: more[j] == layers[j];
        assert LastWith(layers, k, i);
      }
    }
  }

  /** The object the resolver fills, one selected entry at a time. */
  class ResolvedOptions {
    var settings: map<string, map<string, Json>>
    var resources: map<string, Json>
    var references: map<string, Json>
    var profiles: map<string, map<string, Json>>
    var preflight: map<string, Json>
    var runtime: map<string, Json>
    var decisionPolicy: string
    var profile: string
    var exclude: Option<seq<Json>>
    var bindings: map<string, Json>

    constructor ()
      ensures Now() == NO_OPTIONS
    {
      settings, resources, references, profiles, preflight, runtime := map[], map[], map[], map[], map[], map[];
      decisionPolicy, profile, exclude, bindings := "", "", None, map[];
    }

    function Now(): Options
      reads this
    {
      Options(settings, resources, references, profiles, preflight, runtime, decisionPolicy, profile, exclude, bindings)
    }

    method Put(k: OptionKey, v: Json)
      requires Fits(k, v)
      modifies this
      ensures Now() == SetOption(old(Now()), k, v)
    {
      match k
      case Setting(target, name) =>
        var values := if target in settings then settings[target] else map[];
        settings := settings[target := values[name := v]];
      case Resource(name) => resources := resources[name := v];
      case Reference(name) => references := references[name := v];
      case ModelProfile(host, name) =>
        var values := if host in profiles then profiles[host] else map[];
        profiles := profiles[host := values[name := v]];
      case PreflightAnswer(name) => preflight := preflight[name := v];
      case RuntimeAnswer(name) => runtime := runtime[name := v];
      case DecisionPolicy => decisionPolicy := v.text;
      case Profile => profile := v.text;
      case Exclude => exclude := Some(v.items);
    }
  }

  // ----- The order of the entries ------------------------------------------------------------------

  /** Kind, scope and name of an entry. */
  function Label(k: OptionKey): (string, string, string) {
    match k
    case Setting(target, name) => ("settings", target, name)
    case Resource(name) => ("resources", "", name)
    case Reference(name) => ("references", "", name)
    case ModelProfile(host, name) => ("model_profiles", host, name)
    case PreflightAnswer(name) => ("answers", "preflight", name)
    case RuntimeAnswer(name) => ("answers", "runtime", name)
    case DecisionPolicy => ("answers", "", "decision_policy")
    case Profile => ("profile", "", "")
    case Exclude => ("exclude", "", "")
  }

  /** Entries are resolved by kind, then scope, then name. */
  predicate Earlier(a: OptionKey, b: OptionKey) {
    var x, y := Label(a), Label(b);
    StringLess(x.0, y.0) || (x.0 == y.0 && (StringLess(x.1, y.1) || (x.1 == y.1 && StringLess(x.2, y.2))))
  }

  lemma KindsDiffer(a: OptionKey, b: OptionKey)
    requires Label(a).0 == Label(b).0
    ensures a.Setting? == b.Setting? && a.Resource? == b.Resource? && a.Reference? == b.Reference?
    ensures a.ModelProfile? == b.ModelProfile? && a.Profile? == b.Profile? && a.Exclude? == b.Exclude?
  {
    assert |"settings"| == 8 && |"resources"| == 9 && |"references"| == 10 && |"model_profiles"| == 14;
    assert "answers"[0] == 'a' && "profile"[0] == 'p' && "exclude"[0] == 'e';
  }

  lemma EarlierTotal(a: OptionKey, b: OptionKey)
    ensures Earlier(a, b) || Earlier(b, a) || a == b
    ensures !(Earlier(a, b) && Earlier(b, a))
  {
    var x, y := Label(a), Label(b);
    StringLessTotal(x.0, y.0);
    StringLessTotal(x.1, y.1);
    StringLessTotal(x.2, y.2);
    if x == y {
      KindsDiffer(a, b);
      assert |"preflight"| == 9 && |"runtime"| == 7;
    }
  }

  lemma EarlierTransitive(a: OptionKey, b: OptionKey, d: OptionKey)
    requires Earlier(a, b) && Earlier(b, d)
    ensures Earlier(a, d)
  {
    var x, y, z := Label(a), Label(b), Label(d);
    if StringLess(x.0, y.0) && StringLess(y.0, z.0) { StringLessTransitive(x.0, y.0, z.0); }
    if StringLess(x.1, y.1) && StringLess(y.1, z.1) { StringLessTransitive(x.1, y.1, z.1); }
    if StringLess(x.2, y.2) && StringLess(y.2, z.2) { StringLessTransitive(x.2, y.2, z.2); }
  }

  const KINDS := ["answers", "exclude", "model_profiles", "profile", "references", "resources", "settings"]

  /** The place of a kind of entry, the three kinds of answers apart. */
  ghost function Rank(k: OptionKey): nat {
    match k
    case DecisionPolicy => 0
    case PreflightAnswer(_) => 1
    case RuntimeAnswer(_) => 2
    case Exclude => 3
    case ModelProfile(_, _) => 4
    case Profile => 5
    case Reference(_) => 6
    case Resource(_) => 7
    case Setting(_, _) => 8
  }

  /** Entries of different kinds come in that order, the policy before the answers; those of one kind by their names. */
  lemma EarlierIs(a: OptionKey, b: OptionKey)
    ensures Rank(a) < Rank(b) ==> Earlier(a, b)
    ensures a.Setting? && b.Setting? ==>
              (Earlier(a, b) <==> Smaller(a.target, b.target) || (a.target == b.target && Smaller(a.name, b.name)))
    ensures a.ModelProfile? && b.ModelProfile? ==>
              (Earlier(a, b) <==> Smaller(a.host, b.host) || (a.host == b.host && Smaller(a.name, b.name)))
    ensures (a.Resource? && b.Resource?) || (a.Reference? && b.Reference?)
            || (a.PreflightAnswer? && b.PreflightAnswer?) || (a.RuntimeAnswer? && b.RuntimeAnswer?) ==>
              (Earlier(a, b) <==> Smaller(a.name, b.name))
  {
    hide StringLess;
    var x, y := Label(a), Label(b);
    var i, j := if Rank(a) <= 2 then 0 else Rank(a) - 2, if Rank(b) <= 2 then 0 else Rank(b) - 2;
    assert x.0 == KINDS[i] && y.0 == KINDS[j];
    KindsInOrder();
    assert i < j ==> StringLess(KINDS[i], KINDS[j]);
    StringLessIs(x.1, y.1);
    StringLessIs(x.2, y.2);
    StringLessTotal(x.0, x.0);
    StringLessTotal(x.1, x.1);
  }

  lemma KindsInOrder()
    ensures forall i, j | 0 <= i < j < |KINDS| :: StringLess(KINDS[i], KINDS[j])
    ensures StringLess("", "preflight") && StringLess("", "runtime") && StringLess("preflight", "runtime")
  {
    assert "references"[1..][1..][0] == 'f' && "resources"[1..][1..][0] == 's';
  }

  predicate IsFirst(keys: set<OptionKey>, k: OptionKey) {
    k in keys && forall other | other in keys :: !Earlier(other, k)
  }

  lemma {:induction false} SomeFirst(keys: set<OptionKey>) returns (first: OptionKey)
    requires keys != {}
    ensures IsFirst(keys, first)
    decreases |keys|
  {
    var k :| k in keys;
    if keys == {k} {
      first := k;
      EarlierTotal(k, k);
    } else {
      var before := SomeFirst(keys - {k});
      first := if Earlier(k, before) then k else before;
      forall other | other in keys ensures !Earlier(other, first) {
        EarlierTotal(first, other);
        if other != k && first == k && Earlier(other, k) { EarlierTransitive(other, k, before); }
      }
    }
  }

  /** The next entry to resolve: the one of `keys` whose label comes first. */
  method NextKey(keys: set<OptionKey>) returns (k: OptionKey)
    requires keys != {}
    ensures IsFirst(keys, k)
  {
    ghost var first := SomeFirst(keys);
    k :| k in keys && IsFirst(keys, k);
  }

  // ----- A whole resolution ------------------------------------------------------------------------

  ghost predicate Resolves(node: Node, owners: seq<Node>, split: seq<map<OptionKey, Json>>, k: OptionKey)
    requires |split| == |owners|
  {
    ResolveKey(node, k.Reference?, DeclarationsOf(owners, split, k)).Ok?
  }

  /** The entry is declared and does not resolve, and every declared entry before it does. */
  ghost predicate FirstFailure(node: Node, owners: seq<Node>, split: seq<map<OptionKey, Json>>, k: OptionKey)
    requires |split| == |owners|
  {
    && DeclarationsOf(owners, split, k) != [] && !Resolves(node, owners, split, k)
    && forall other | DeclarationsOf(owners, split, other) != [] && Earlier(other, k) ::
       Resolves(node, owners, split, other)
  }

  /**
   What resolving over these split declarations must return; a refusal is that of
   the first entry that does not resolve.
   */
  ghost predicate Resolution(node: Node, owners: seq<Node>, parentBindings: seq<map<string, Json>>,
                             split: seq<map<OptionKey, Json>>,
                             r: Result<Options>)
    requires |split| == |owners|
  {
    match r
    case Ok(o) => AllResolved(node, owners, split, o) && BoundOver(parentBindings, node.own.bindings, o.bindings)
    case Refused(code) =>
      exists k :: FirstFailure(node, owners, split, k)
                  && ResolveKey(node, k.Reference?, DeclarationsOf(owners, split, k)) == Refused(code)
  }

  /** Only one entry is the first that fails, so the declarations decide the refusal. */
  lemma OneFirstFailure(node: Node, owners: seq<Node>, split: seq<map<OptionKey, Json>>, a: OptionKey, b: OptionKey)
    requires |split| == |owners| && FirstFailure(node, owners, split, a) && FirstFailure(node, owners, split, b)
    ensures a == b
  {
    EarlierTotal(a, b);
  }

  lemma FailsFirst(node: Node, owners: seq<Node>, split: seq<map<OptionKey, Json>>, o: Options, rest: set<OptionKey>,
                   k: OptionKey)
    requires |split| == |owners| && PartlyResolved(node, owners, split, o, AllKeys(split) - rest) && IsFirst(rest, k)
    requires rest <= AllKeys(split) && !Resolves(node, owners, split, k)
    ensures FirstFailure(node, owners, split, k)
  {
    hide ResolveKey, Earlier;
    KeysAreDeclared(owners, split, k);
    forall other | DeclarationsOf(owners, split, other) != [] && Earlier(other, k)
      ensures Resolves(node, owners, split, other) {
      KeysAreDeclared(owners, split, other);
      assert other in AllKeys(split) - rest;
      assert EntryResolved(node, owners, split, o, other);
    }
  }

  lemma SplitLength(node: Node, owners: seq<Node>, split: seq<map<OptionKey, Json>>)
    requires SplitOk(node, owners, split)
    ensures |split| == |owners|
  {
  }

  /**
   Resolve a node's options over its owners. On success every declared entry
   holds its resolved value, no other entry is set, and the execution
   bindings are the parents' merged in order under the node's own. A refusal
   is that of the first entry, in the order of labels, that does not resolve.
   */
  method ResolveOptions(node: Node, owners: seq<Node>, parentBindings: seq<map<string, Json>>)
    returns (r: Result<Options>)
    ensures exists split :: SplitOk(node, owners, split) && Resolution(node, owners, parentBindings, split, r)
  {
    hide SplitOk, EntryResolved, ResolveKey, Earlier, PartlyResolved, AllKeys;
    var parts := SplitOwners(node, owners);
    SplitLength(node, owners, parts);
    var keys := AllKeys(parts);
    var selected := new ResolvedOptions();
    NoneResolved(node, owners, parts);
    var rest := keys;
    assert keys - rest == {};
    while rest != {}
      invariant rest <= keys && selected.Now().bindings == map[]
      invariant PartlyResolved(node, owners, parts, selected.Now(), keys - rest)
    {
      var k := NextKey(rest);
      ghost var done, before := keys - rest, rest;
      rest := rest - {k};
      var declared := ListDeclarations(owners, parts, k);
      KeysAreDeclared(owners, parts, k);
      var value := ResolveEntry(node, k.Reference?, declared);
      if value.Refused? {
        FailsFirst(node, owners, parts, selected.Now(), before, k);
        assert Resolution(node, owners, parentBindings, parts, Refused(value.code));
        return Refused(value.code);
      }
      ResolvedFits(node, owners, parts, k);
      ResolveStep(node, owners, parts, selected.Now(), done, k);
      selected.Put(k, value.value);
      assert keys - rest == done + {k};
    }
    assert keys - rest == keys;
    PartsResolved(node, owners, parts, selected.Now());
    var merged := MergeBindings(parentBindings, node.own.bindings);
    BindingsApart(node, owners, parts, selected.Now(), merged);
    assert Resolution(node, owners, parentBindings, parts, Ok(selected.Now().(bindings := merged)));
    return Ok(selected.Now().(bindings := merged));
  }

  /** Split every owner's options into entries under the composed root. */
  method SplitOwners(node: Node, owners: seq<Node>) returns (parts: seq<map<OptionKey, Json>>)
    ensures SplitOk(node, owners, parts)
  {
    parts := [];
    for i := 0 to |owners|
      invariant |parts| == i
      invariant forall j | 0 <= j < i :: AreEntries(owners[j].own, owners[j].rootName, node.rootName, parts[j])
    {
      var entries := Entries(owners[i].own, owners[i].rootName, node.rootName);
      parts := parts + [entries];
    }
  }

  /** The parents' execution bindings in order, under the node's own. */
  method MergeBindings(parentBindings: seq<map<string, Json>>, own: map<string, Json>)
    returns (merged: map<string, Json>)
    ensures BoundOver(parentBindings, own, merged)
  {
    merged := map[];
    for i := 0 to |parentBindings|
      invariant Layered(parentBindings[..i], merged)
    {
      LayeredOver(parentBindings[..i], merged, parentBindings[i]);
      assert parentBindings[..i + 1] == parentBindings[..i] + [parentBindings[i]];
      merged := merged + parentBindings[i];
    }
    assert parentBindings[..|parentBindings|] == parentBindings;
    merged := merged + own;
  }

  lemma NoneResolved(node: Node, owners: seq<Node>, split: seq<map<OptionKey, Json>>)
    requires |split| == |owners|
    ensures PartlyResolved(node, owners, split, NO_OPTIONS, {})
  {
  }

  /** Once every declared entry is resolved, all entries are. */
  lemma PartsResolved(node: Node, owners: seq<Node>, split: seq<map<OptionKey, Json>>, o: Options)
    requires |split| == |owners| && PartlyResolved(node, owners, split, o, AllKeys(split))
    ensures AllResolved(node, owners, split, o)
  {
    forall k ensures EntryResolved(node, owners, split, o, k) {
      KeysAreDeclared(owners, split, k);
    }
  }

  lemma BindingsApart(node: Node, owners: seq<Node>, split: seq<map<OptionKey, Json>>, o: Options,
                      bindings: map<string, Json>)
    requires |split| == |owners| && AllResolved(node, owners, split, o)
    ensures AllResolved(node, owners, split, o.(bindings := bindings))
  {
    var more := o.(bindings := bindings);
    forall k ensures EntryResolved(node, owners, split, more, k) {
      assert Get(more, k) == Get(o, k);
      assert EntryResolved(node, owners, split, o, k);
    }
  }

  /** The entries in `done` are resolved and no other is set. */
  ghost predicate PartlyResolved(node: Node, owners: seq<Node>, split: seq<map<OptionKey, Json>>, o: Options,
                                 done: set<OptionKey>)
    requires |split| == |owners|
  {
    forall k :: if k in done then EntryResolved(node, owners, split, o, k) else Get(o, k) == None
  }

  lemma ResolveStep(node: Node, owners: seq<Node>, split: seq<map<OptionKey, Json>>, o: Options, done: set<OptionKey>,
                    k: OptionKey)
    requires |split| == |owners| && PartlyResolved(node, owners, split, o, done)
             && DeclarationsOf(owners, split, k) != []
    requires ResolveKey(node, k.Reference?, DeclarationsOf(owners, split, k)).Ok?
    requires Fits(k, ResolveKey(node, k.Reference?, DeclarationsOf(owners, split, k)).value)
    ensures var v := ResolveKey(node, k.Reference?, DeclarationsOf(owners, split, k)).value;
            PartlyResolved(node, owners, split, SetOption(o, k, v), done + {k})
            && SetOption(o, k, v).bindings == o.bindings
  {
    var v := ResolveKey(node, k.Reference?, DeclarationsOf(owners, split, k)).value;
    var more := SetOption(o, k, v);
    SetThenGet(o, k, v, k);
    forall other ensures if other in done + {k} then EntryResolved(node, owners, split, more, other)
      else Get(more, other) == None {
      SetThenGet(o, k, v, other);
      if other in done { assert EntryResolved(node, owners, split, o, other); }
    }
  }

  function AllKeys(parts: seq<map<OptionKey, Json>>): set<OptionKey> {
    if parts == [] then {} else AllKeys(parts[..|parts| - 1]) + parts[|parts| - 1].Keys
  }

  lemma {:induction false} KeysAreDeclared(owners: seq<Node>, parts: seq<map<OptionKey, Json>>, k: OptionKey)
    requires |parts| == |owners|
    ensures k in AllKeys(parts) <==> DeclarationsOf(owners, parts, k) != []
  {
    if owners != [] {
      KeysAreDeclared(owners[..|owners| - 1], parts[..|owners| - 1], k);
    }
  }

  method ListDeclarations(owners: seq<Node>, parts: seq<map<OptionKey, Json>>,
                          k: OptionKey) returns (declared: seq<Declaration>)
    requires |parts| == |owners|
    ensures declared == DeclarationsOf(owners, parts, k)
  {
    declared := [];
    for i := 0 to |owners|
      invariant declared == DeclarationsOf(owners[..i], parts[..i], k)
    {
      assert owners[..i + 1][..i] == owners[..i] && parts[..i + 1][..i] == parts[..i];
      if k in parts[i] {
        declared := declared + [Declaration(owners[i], parts[i][k])];
      }
    }
    assert owners[..|owners|] == owners && parts[..|parts|] == parts;
  }

  /** The declarations a resolution works on satisfy what the theorems about single entries assume. */
  lemma DeclarationsFit(node: Node, owners: seq<Node>, split: seq<map<OptionKey, Json>>, k: OptionKey)
    requires IsAncestry(node, owners) && |split| == |owners|
    ensures DeclaredBy(node, owners, DeclarationsOf(owners, split, k))
  {
    DeclarationsAre(owners, split, k);
    DeclarationsDistinct(node, owners, split, k);
  }

  /** Once resolution succeeded, an entry the node itself declares, other than a reference, has the node's value. */
  lemma ConsumerDecides(node: Node, owners: seq<Node>, split: seq<map<OptionKey, Json>>, o: Options, i: nat,
                        k: OptionKey)
    requires IsAncestry(node, owners) && SplitOk(node, owners, split) && EntryResolved(node, owners, split, o, k)
    requires i < |owners| && owners[i] == node && k in split[i] && !k.Reference?
    ensures Get(o, k) == Some(split[i][k])
  {
    DeclarationsFit(node, owners, split, k);
    DeclarationsAre(owners, split, k);
    OwnDeclarationWins(node, owners, DeclarationsOf(owners, split, k), Declaration(node, split[i][k]));
  }
}
