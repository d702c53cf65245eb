/**
 Sealing a package: every owned definition is rebuilt once, after the owned
 definitions it refers to, with their sealed references in place of the
 authored ones.
 */
module BuildSealing {
  import opened Prelude
  import opened Flow
  import opened Definitions

  const MAX_DEPTH := 64

  datatype Definition = Definition(kind: string, ref: Ref, doc: Json, root: bool)

  datatype SealedDefinition = SealedDefinition(kind: string, author: Ref, ref: Ref, doc: Json, path: string, root: bool)

  /**
   The hash of kind, identity and authored version that names a definition in one
   build, and the digest of documents.
   */
  datatype Hashes = Hashes(version: (string, string, string) -> string, digest: Json -> string)

  function CompiledVersion(hashes: Hashes, kind: string, author: Ref): string {
    (hashes.version)(kind, author.id, author.version)
  }

  /** What the builder reads: the definitions in their sorted order and the hashes of this build. */
  datatype Package = Package(definitions: seq<Definition>, hashes: Hashes)

  /** The last definition listed under a reference, as filling a map in order leaves it. */
  function OwnedIn(definitions: seq<Definition>, ref: Ref): Option<nat> {
    if definitions == [] then None
    else if definitions[|definitions| - 1].ref == ref then Some(|definitions| - 1)
    else OwnedIn(definitions[..|definitions| - 1], ref)
  }

  lemma {:induction false} OwnedIsListed(definitions: seq<Definition>, ref: Ref)
    ensures match OwnedIn(definitions, ref)
            case Some(i) => i < |definitions| && definitions[i].ref == ref
            case None => forall j | 0 <= j < |definitions| :: definitions[j].ref != ref
  {
    if definitions != [] { OwnedIsListed(definitions[..|definitions| - 1], ref); }
  }

  function Owned(p: Package, ref: Ref): (r: Option<nat>)
    ensures r.Some? ==> r.value < |p.definitions|
  {
    OwnedIsListed(p.definitions, ref);
    OwnedIn(p.definitions, ref)
  }

  /** Contexts are raw payloads and schemas are never searched for references. */
  function Visited(d: Definition): set<Ref> {
    if d.kind == "context" || d.kind == "schema" then {} else RefsIn(d.doc, false)
  }

  /** `i` refers to the owned definition `j`. */
  predicate RefersTo(p: Package, i: nat, j: nat)
    requires i < |p.definitions|
  {
    exists r :: r in Visited(p.definitions[i]) && Owned(p, r) == Some(j)
  }

  /** A reference as sealed so far: owned ones by their sealed reference, the others as they are. */
  function SealedRef(p: Package, result: map<nat, SealedDefinition>): Ref -> Ref {
    (r: Ref) =>
      var index := Owned(p, r);
      if index.Some? && index.value in result then result[index.value].ref else r
  }

  function WithVersion(doc: Json, version: string): Json {
    if doc.JObject? then JObject(doc.fields["version" := JString(version)]) else doc
  }

  /** A number with at least three digits, as "%03d" prints it. */
  function Padded(n: nat): string {
    (if n < 10 then "00" else if n < 100 then "0" else "") + Decimal(n)
  }

  function PathOf(kind: string, index: nat): string {
    (if kind == "context" then "contexts" else kind + "s") + "/" + Padded(index)
    + if kind == "context" then ".txt" else ".json"
  }

  /** The number in decimal digits, with zeros in front up to three. */
  lemma PaddedIs(n: nat)
    ensures ValueOf(Padded(n)) == n && |Padded(n)| >= 3 && (|Padded(n)| > 3 ==> Padded(n)[0] != '0')
    ensures forall i | 0 <= i < |Padded(n)| :: '0' <= Padded(n)[i] <= '9'
  {
    hide Decimal, ValueOf;
    DecimalIs(n);
    LeadingZero(Decimal(n));
    LeadingZero("0" + Decimal(n));
    assert "00" + Decimal(n) == "0" + ("0" + Decimal(n));
    assert "" + Decimal(n) == Decimal(n);
  }

  /** Where a definition is written: in the directory of its kind, under its number in three digits or more. */
  lemma PathIs(kind: string, index: nat)
    ensures kind == "context" ==> PathOf(kind, index) == "contexts/" + Padded(index) + ".txt"
    ensures kind != "context" ==> PathOf(kind, index) == kind + "s/" + Padded(index) + ".json"
  {
    hide Padded;
    assert "contexts" + "/" == "contexts/" && kind + "s" + "/" == kind + "s/";
  }

  lemma {:induction false} LeadingZero(s: string)
    ensures ValueOf("0" + s) == ValueOf(s)
  {
    if s == [] {
      assert "0" + s == "0" && "0"[..0] == [];
      assert ValueOf("0") == 10 * ValueOf([]) + 0;
    } else {
      LeadingZero(s[..|s| - 1]);
      assert ("0" + s)[..|s|] == "0" + s[..|s| - 1];
    }
  }

  /** So no two definitions of a package are written to the same place. */
  lemma PathsDiffer(kind: string, i: nat, other: string, j: nat)
    requires PathOf(kind, i) == PathOf(other, j)
    ensures i == j
  {
    hide Padded, PathOf;
    PathIs(kind, i);
    PathIs(other, j);
    PaddedIs(i);
    PaddedIs(j);
    var path, a, b := PathOf(kind, i), Padded(i), Padded(j);
    assert path[|path| - 1] == if kind == "context" then 't' else 'n';
    assert path[|path| - 1] == if other == "context" then 't' else 'n';
    var end := |path| - if kind == "context" then 4 else 5;
    assert path[end - |a|..end] == a && path[end - |a| - 1] == '/';
    assert path[end - |b|..end] == b && path[end - |b| - 1] == '/';
    LongerHasSlash(path, end, a, b);
    LongerHasSlash(path, end, b, a);
  }

  lemma LongerHasSlash(path: string, end: nat, a: string, b: string)
    requires |a| < end <= |path| && |b| < end && path[end - |a|..end] == a && path[end - |b|..end] == b
    requires path[end - |a| - 1] == '/'
    ensures |a| < |b| ==> b[|b| - |a| - 1] == '/'
  {
  }

  /** What sealing definition `i` gives once everything it refers to is in `result`. */
  function SealOf(p: Package, result: map<nat, SealedDefinition>, i: nat): SealedDefinition
    requires i < |p.definitions|
  {
    var d := p.definitions[i];
    var version := CompiledVersion(p.hashes, d.kind, d.ref);
    var path := PathOf(d.kind, i);
    if d.kind == "context" then
      SealedDefinition(d.kind, d.ref, Ref(d.ref.id, version, d.ref.digest), d.doc, path, d.root)
    else
      var renamed := if d.kind == "schema" then d.doc else Rename(d.doc, false, SealedRef(p, result));
      var doc := WithVersion(renamed, version);
      SealedDefinition(d.kind, d.ref, Ref(d.ref.id, version, (p.hashes.digest)(doc)), doc, path, d.root)
  }

  /** Every definition finished so far is sealed, and refers only to definitions finished before it. */
  ghost predicate Progress(p: Package, result: map<nat, SealedDefinition>, finished: seq<nat>) {
    && Distinct(finished)
    && (forall i :: i in finished <==> i in result)
    && (forall i | i in finished :: i < |p.definitions| && result[i] == SealOf(p, result, i))
    && forall k | 0 <= k < |finished| :: RefersBack(p, finished, k)
  }

  /** Whatever owned definition `finished[k]` refers to was finished before it. */
  ghost predicate RefersBack(p: Package, finished: seq<nat>, k: nat)
    requires k < |finished|
  {
    finished[k] < |p.definitions| ==>
      forall r | r in Visited(p.definitions[finished[k]]) && Owned(p, r).Some? :: Owned(p, r).value in finished[..k]
  }

  ghost predicate Grown(before: map<nat, SealedDefinition>, after: map<nat, SealedDefinition>) {
    forall i | i in before :: i in after && after[i] == before[i]
  }

  lemma GrownTwice(before: map<nat, SealedDefinition>, middle: map<nat, SealedDefinition>,
                   after: map<nat, SealedDefinition>)
    ensures Grown(before, before)
    ensures Grown(before, middle) && Grown(middle, after) ==> Grown(before, after)
  {
  }

  ghost predicate AllSealed(p: Package, result: map<nat, SealedDefinition>, refs: set<Ref>) {
    forall r | r in refs && Owned(p, r).Some? :: Owned(p, r).value in result
  }

  lemma RenameLater(p: Package, before: map<nat, SealedDefinition>, after: map<nat, SealedDefinition>, value: Json,
                    configuration: bool)
    requires Grown(before, after) && AllSealed(p, before, RefsIn(value, configuration))
    ensures Rename(value, configuration, SealedRef(p, before)) == Rename(value, configuration, SealedRef(p, after))
  {
    RenameAgrees(value, configuration, SealedRef(p, before), SealedRef(p, after));
  }

  lemma SealLater(p: Package, before: map<nat, SealedDefinition>, after: map<nat, SealedDefinition>, i: nat)
    requires Grown(before, after) && i < |p.definitions| && AllSealed(p, before, Visited(p.definitions[i]))
    ensures SealOf(p, before, i) == SealOf(p, after, i)
  {
    var d := p.definitions[i];
    if d.kind != "context" && d.kind != "schema" {
      RenameLater(p, before, after, d.doc, false);
    }
  }

  lemma ProgressStep(p: Package, result: map<nat, SealedDefinition>, finished: seq<nat>, i: nat)
    requires Progress(p, result, finished) && i < |p.definitions| && i !in finished
    requires AllSealed(p, result, Visited(p.definitions[i]))
    ensures Progress(p, result[i := SealOf(p, result, i)], finished + [i])
  {
    var after, more := result[i := SealOf(p, result, i)], finished + [i];
    assert Grown(result, after);
    forall k | 0 <= k < |more| ensures RefersBack(p, more, k) {
      if k < |finished| {
        assert RefersBack(p, finished, k) && more[..k] == finished[..k];
      } else {
        assert more[..k] == finished;
      }
    }
    forall j | j in more ensures j < |p.definitions| && after[j] == SealOf(p, after, j) {
      if j == i {
        SealLater(p, result, after, i);
      } else {
        var k :| 0 <= k < |finished| && finished[k] == j;
        assert RefersBack(p, finished, k);
        forall r | r in Visited(p.definitions[j]) && Owned(p, r).Some? ensures Owned(p, r).value in result {
          assert Owned(p, r).value in finished[..k];
        }
        SealLater(p, result, after, j);
      }
    }
  }

  /** A walk along references between owned definitions. */
  ghost predicate IsWalk(p: Package, walk: seq<nat>) {
    && (forall k | 0 <= k < |walk| :: walk[k] < |p.definitions|)
    && forall k, j | 0 <= k < j < |walk| && j == k + 1 :: RefersTo(p, walk[k], walk[j])
  }

  ghost predicate Closed(walk: seq<nat>) {
    |walk| > 1 && walk[0] == walk[|walk| - 1]
  }

  /** Some walk returns to where it started, or passes more definitions than a seal may nest. */
  ghost predicate CyclicOrDeep(p: Package) {
    exists walk :: IsWalk(p, walk) && (Closed(walk) || |walk| > 64)
  }

  lemma WalkExtends(p: Package, walk: seq<nat>, i: nat)
    requires IsWalk(p, walk) && i < |p.definitions| && (walk != [] ==> RefersTo(p, walk[|walk| - 1], i))
    ensures IsWalk(p, walk + [i])
  {
  }

  lemma WalkCloses(p: Package, walk: seq<nat>, i: nat)
    requires IsWalk(p, walk) && i in walk && RefersTo(p, walk[|walk| - 1], i)
    ensures CyclicOrDeep(p)
  {
    var k :| 0 <= k < |walk| && walk[k] == i;
    WalkExtends(p, walk, i);
    var loop := (walk + [i])[k..];
    assert IsWalk(p, loop) && Closed(loop);
  }

  /** The definitions being sealed right now, outermost first, each referring to the next. */
  ghost predicate OnTrail(p: Package, trail: seq<nat>, active: set<nat>) {
    && IsWalk(p, trail) && Distinct(trail) && active == Elements(trail)
    && |active| == |trail| <= |p.definitions| && |trail| <= MAX_DEPTH
  }

  /**
   From `first`, a walk over definitions that are not sealed returns to one it
   passed, or passes more than may nest.
   */
  ghost predicate Stuck(p: Package, first: nat, sealed: set<nat>) {
    exists walk: seq<nat> :: StuckAlong(p, first, sealed, walk)
  }

  ghost predicate StuckAlong(p: Package, first: nat, sealed: set<nat>, walk: seq<nat>) {
    && IsWalk(p, walk) && walk != [] && walk[0] == first && (forall k | 0 <= k < |walk| :: walk[k] !in sealed)
    && (walk[|walk| - 1] in walk[..|walk| - 1] || |walk| > 64)
  }

  lemma StuckEarlier(p: Package, first: nat, less: map<nat, SealedDefinition>, more: map<nat, SealedDefinition>)
    requires Grown(less, more) && Stuck(p, first, more.Keys)
    ensures Stuck(p, first, less.Keys)
  {
    var walk :| StuckAlong(p, first, more.Keys, walk);
    assert StuckAlong(p, first, less.Keys, walk);
  }

  lemma StuckIsCyclicOrDeep(p: Package, first: nat, sealed: set<nat>)
    requires Stuck(p, first, sealed)
    ensures CyclicOrDeep(p)
  {
    var walk :| StuckAlong(p, first, sealed, walk);
    if |walk| <= MAX_DEPTH {
      var front, last := walk[..|walk| - 1], walk[|walk| - 1];
      assert IsWalk(p, front) && RefersTo(p, front[|front| - 1], last);
      WalkCloses(p, front, last);
    }
  }

  /** The walk leads from `first` to `j` and passes no more definitions than may nest. */
  ghost predicate EndsWithin(p: Package, first: nat, j: nat, walk: seq<nat>) {
    IsWalk(p, walk) && walk != [] && walk[0] == first && walk[|walk| - 1] == j && |walk| <= 64
  }

  ghost predicate ReachedWithin(p: Package, first: nat, j: nat) {
    exists walk :: EndsWithin(p, first, j, walk)
  }

  /** What is sealed stays sealed, and whatever is new `first` leads to within the limit. */
  ghost predicate Extends(p: Package, first: nat, before: map<nat, SealedDefinition>,
                          after: map<nat, SealedDefinition>) {
    Grown(before, after) && forall j | j in after && j !in before :: ReachedWithin(p, first, j)
  }

  lemma ExtendsTwice(p: Package, first: nat, before: map<nat, SealedDefinition>, middle: map<nat, SealedDefinition>,
                     after: map<nat, SealedDefinition>)
    requires Extends(p, first, before, middle) && Extends(p, first, middle, after)
    ensures Extends(p, first, before, after)
  {
  }

  lemma FinishedExtends(p: Package, trail: seq<nat>, active: set<nat>, before: map<nat, SealedDefinition>,
                        middle: map<nat, SealedDefinition>, after: map<nat, SealedDefinition>, index: nat)
    requires OnTrail(p, trail, active) && trail != [] && trail[|trail| - 1] == index
    requires Extends(p, trail[0], before, middle) && Grown(middle, after) && after.Keys == middle.Keys + {index}
    ensures Extends(p, trail[0], before, after)
  {
    assert EndsWithin(p, trail[0], index, trail);
  }

  lemma CannotNest(p: Package, trail: seq<nat>, active: set<nat>, index: nat, result: map<nat, SealedDefinition>)
    requires OnTrail(p, trail, active) && active !! result.Keys && index !in result && index < |p.definitions|
    requires trail != [] ==> RefersTo(p, trail[|trail| - 1], index)
    requires index in active || |active| >= MAX_DEPTH
    ensures Stuck(p, First(trail, index), result.Keys)
  {
    WalkExtends(p, trail, index);
    var walk := trail + [index];
    assert walk[..|walk| - 1] == trail;
    forall k | 0 <= k < |walk| ensures walk[k] !in result.Keys {
      if k < |trail| { assert trail[k] in Elements(trail); }
    }
    assert StuckAlong(p, First(trail, index), result.Keys, walk);
  }

  /** Where the sealing under way began. */
  function First(trail: seq<nat>, index: nat): nat {
    if trail == [] then index else trail[0]
  }

  lemma NestDeeper(p: Package, trail: seq<nat>, active: set<nat>, index: nat)
    requires OnTrail(p, trail, active) && index < |p.definitions| && index !in active && |active| < MAX_DEPTH
    requires trail != [] ==> RefersTo(p, trail[|trail| - 1], index)
    ensures OnTrail(p, trail + [index], active + {index})
    ensures |active| < |active + {index}| <= |p.definitions|
  {
    hide IsWalk, RefersTo;
    WalkExtends(p, trail, index);
    OneMoreActive(trail, active, index);
    InRange(p, trail, index);
    assert Distinct(trail + [index]);
    SubsetSize(active + {index}, Below(|p.definitions|));
    RangeSize(|p.definitions|);
  }

  lemma OneMoreActive(trail: seq<nat>, active: set<nat>, index: nat)
    requires Distinct(trail) && active == Elements(trail) && index !in active
    ensures Distinct(trail + [index]) && Elements(trail + [index]) == active + {index}
            && |active + {index}| == |active| + 1
  {
    assert Elements(trail + [index]) == active + {index};
    forall k | 0 <= k < |trail| ensures trail[k] != index { assert trail[k] in active; }
  }

  lemma InRange(p: Package, trail: seq<nat>, index: nat)
    requires IsWalk(p, trail) && index < |p.definitions|
    ensures Elements(trail) + {index} <= Below(|p.definitions|)
  {
  }

  class Builder {
    const package: Package
    var result: map<nat, SealedDefinition>
    var active: set<nat>
    ghost var finished: seq<nat>
    ghost var trail: seq<nat>

    ghost predicate Valid()
      reads this
    {
      && Progress(package, result, finished)
      && active !! result.Keys
      && OnTrail(package, trail, active)
    }

    /** What the walker looks at belongs to the definition it is sealing. */
    ghost predicate Inside(value: Json, configuration: bool)
      reads this
    {
      && trail != [] && trail[|trail| - 1] < |package.definitions|
      && RefsIn(value, configuration) <= Visited(package.definitions[trail[|trail| - 1]])
    }

    constructor (package: Package)
      ensures Valid() && this.package == package && trail == [] && result == map[]
    {
      this.package := package;
      this.result, this.active, this.finished, this.trail := map[], {}, [], [];
    }

    /** Seal one definition and, first, everything owned it refers to. */
    method Rebuild(index: nat) returns (r: Result<Ref>)
      requires Valid() && index < |package.definitions|
      requires trail != [] ==> RefersTo(package, trail[|trail| - 1], index)
      modifies this
      ensures r.Ok? ==>
                Valid() && Extends(package, First(old(trail), index), old(result), result) && trail == old(trail)
                && active == old(active)
      ensures r.Ok? ==> index in result && r.value == result[index].ref
      ensures r.Refused? ==>
                r.code == "project_compile_dependency_cycle"
                && Stuck(package, First(old(trail), index), old(result.Keys))
      decreases |package.definitions| - |active|, 0, 1
    {
      if index in result {
        return Ok(result[index].ref);
      }
      if index in active || |active| >= MAX_DEPTH {
        CannotNest(package, trail, active, index, result);
        return Refused("project_compile_dependency_cycle");
      }
      r := RebuildNew(index);
    }

    /** Seal a definition that is neither sealed nor being sealed. */
    method RebuildNew(index: nat) returns (r: Result<Ref>)
      requires Valid() && index < |package.definitions| && index !in result && index !in active && |active| < MAX_DEPTH
      requires trail != [] ==> RefersTo(package, trail[|trail| - 1], index)
      modifies this
      ensures r.Ok? ==>
                Valid() && Extends(package, First(old(trail), index), old(result), result) && trail == old(trail)
                && active == old(active)
      ensures r.Ok? ==> index in result && r.value == result[index].ref
      ensures r.Refused? ==>
                r.code == "project_compile_dependency_cycle"
                && Stuck(package, First(old(trail), index), old(result.Keys))
      decreases |package.definitions| - |active|, 0, 0
    {
      hide Progress, OnTrail, Stuck, AllSealed, RefersTo, Grown, Extends;
      NestDeeper(package, trail, active, index);
      active, trail := active + {index}, trail + [index];
      ghost var nested := active;
      var children := RebuildChildren(index);
      if children.Refused? {
        return Refused(children.code);
      }
      ghost var before := result;
      Finish(index);
      FinishedExtends(package, trail, nested, old(result), before, result, index);
      trail := old(trail);
      assert active == old(active);
      return Ok(result[index].ref);
    }

    /** Seal everything owned that the definition at the end of the trail refers to. */
    method RebuildChildren(index: nat) returns (r: Result<()>)
      requires Valid() && trail != [] && trail[|trail| - 1] == index && index < |package.definitions|
      modifies this
      ensures r.Ok? ==>
                Valid() && Extends(package, old(trail[0]), old(result), result) && trail == old(trail)
                && active == old(active)
      ensures r.Ok? ==> AllSealed(package, result, Visited(package.definitions[index]))
      ensures r.Refused? ==>
                r.code == "project_compile_dependency_cycle" && Stuck(package, old(trail[0]), old(result.Keys))
      decreases |package.definitions| - |active|, 2
    {
      var d := package.definitions[index];
      if d.kind != "context" && d.kind != "schema" {
        var mapped := RebuildRefs(d.doc, false);
        if mapped.Refused? {
          return Refused(mapped.code);
        }
      }
      return Ok(());
    }

    /** Record the sealed definition at the end of the trail. */
    method Finish(index: nat)
      requires Valid() && index in active && index < |package.definitions|
      requires AllSealed(package, result, Visited(package.definitions[index]))
      modifies this
      ensures Progress(package, result, finished) && Grown(old(result), result) && index in result
      ensures result.Keys == old(result).Keys + {index}
      ensures active == old(active) - {index} && trail == old(trail)
    {
      ProgressStep(package, result, finished, index);
      result := result[index := SealOf(package, result, index)];
      finished := finished + [index];
      active := active - {index};
    }

    /** Rewrite a value, sealing every owned definition it refers to on the way. */
    method RebuildRefs(value: Json, configuration: bool) returns (r: Result<Json>)
      requires Valid() && Inside(value, configuration)
      modifies this
      ensures r.Ok? ==>
                Valid() && Extends(package, old(trail[0]), old(result), result) && trail == old(trail)
                && active == old(active)
      ensures r.Ok? ==> AllSealed(package, result, RefsIn(value, configuration))
      ensures r.Ok? ==> r.value == Rename(value, configuration, SealedRef(package, result))
      ensures r.Refused? ==>
                r.code == "project_compile_dependency_cycle" && Stuck(package, old(trail[0]), old(result.Keys))
      decreases |package.definitions| - |active|, 1, value
    {
      match value
      case JObject(fields) =>
        if IsRef(fields) {
          var ref := RefOf(fields);
          var child := Owned(package, ref);
          if child.None? {
            return Ok(RefValue(ref));
          }
          var sealed := Rebuild(child.value);
          if sealed.Refused? {
            return Refused(sealed.code);
          }
          return Ok(RefValue(sealed.value));
        }
        r := RebuildFields(value, configuration);
      case JArray(items) =>
        r := RebuildItems(value, configuration);
      case _ => return Ok(value);
    }

    /** Rewrite the items of an array in order. */
    method RebuildItems(value: Json, configuration: bool) returns (r: Result<Json>)
      requires Valid() && Inside(value, configuration) && value.JArray?
      modifies this
      ensures r.Ok? ==>
                Valid() && Extends(package, old(trail[0]), old(result), result) && trail == old(trail)
                && active == old(active)
      ensures r.Ok? ==> AllSealed(package, result, RefsIn(value, configuration))
      ensures r.Ok? ==> r.value == Rename(value, configuration, SealedRef(package, result))
      ensures r.Refused? ==>
                r.code == "project_compile_dependency_cycle" && Stuck(package, old(trail[0]), old(result.Keys))
      decreases |package.definitions| - |active|, 1, value, 1
    {
      hide Progress, OnTrail, Stuck, AllSealed, ItemsDone;
      var mapped: seq<Json> := [];
      ItemsNone(package, result, value.items);
      for i := 0 to |value.items|
        invariant Valid() && Extends(package, old(trail[0]), old(result), result) && trail == old(trail)
                  && active == old(active)
        invariant ItemsDone(package, result, value.items[..i], mapped)
      {
        ghost var before := result;
        assert Inside(value.items[i], false);
        var one := RebuildRefs(value.items[i], false);
        if one.Refused? {
          StuckEarlier(package, old(trail[0]), old(result), before);
          return Refused(one.code);
        }
        ItemsLater(package, before, result, value.items, i, mapped, one.value);
        mapped := mapped + [one.value];
      }
      ItemsRename(package, result, value.items, configuration, mapped);
      return Ok(JArray(mapped));
    }

    /** Rewrite the fields of an object in whatever order they are visited. */
    method RebuildFields(value: Json, configuration: bool) returns (r: Result<Json>)
      requires Valid() && Inside(value, configuration) && value.JObject? && !IsRef(value.fields)
      modifies this
      ensures r.Ok? ==>
                Valid() && Extends(package, old(trail[0]), old(result), result) && trail == old(trail)
                && active == old(active)
      ensures r.Ok? ==> AllSealed(package, result, RefsIn(value, configuration))
      ensures r.Ok? ==> r.value == Rename(value, configuration, SealedRef(package, result))
      ensures r.Refused? ==>
                r.code == "project_compile_dependency_cycle" && Stuck(package, old(trail[0]), old(result.Keys))
      decreases |package.definitions| - |active|, 1, value, 1
    {
      var mapped: map<string, Json> := map[];
      var rest := value.fields.Keys;
      while rest != {}
        invariant Valid() && Extends(package, old(trail[0]), old(result), result) && trail == old(trail)
                  && active == old(active)
        invariant rest <= value.fields.Keys && mapped.Keys == value.fields.Keys - rest
        invariant FieldsDone(package, result, value.fields, configuration, mapped)
        decreases rest
      {
        var key :| key in rest;
        rest := rest - {key};
        ghost var before := result;
        var one := RebuildField(value, configuration, key);
        if one.Refused? {
          StuckEarlier(package, old(trail[0]), old(result), before);
          return Refused(one.code);
        }
        FieldsLater(package, before, result, value.fields, configuration, mapped);
        mapped := mapped[key := one.value];
      }
      FieldsRename(package, result, value.fields, configuration, mapped);
      return Ok(JObject(mapped));
    }

    method RebuildField(value: Json, configuration: bool, key: string) returns (r: Result<Json>)
      requires Valid() && Inside(value, configuration) && value.JObject? && !IsRef(value.fields) && key in value.fields
      modifies this
      ensures r.Ok? ==>
                Valid() && Extends(package, old(trail[0]), old(result), result) && trail == old(trail)
                && active == old(active)
      ensures r.Ok? ==> FieldDone(package, result, value.fields, configuration, key, r.value)
      ensures r.Refused? ==>
                r.code == "project_compile_dependency_cycle" && Stuck(package, old(trail[0]), old(result.Keys))
      decreases |package.definitions| - |active|, 1, value, 0
    {
      if Data(value.fields, configuration, key) {
        return Ok(value.fields[key]);
      }
      FieldRefs(value.fields, configuration, key);
      r := RebuildRefs(value.fields[key], IsConfiguration(value.fields, key));
    }
  }

  lemma FieldRefs(fields: map<string, Json>, configuration: bool, key: string)
    requires !IsRef(fields) && key in fields && !Data(fields, configuration, key)
    ensures RefsIn(fields[key], IsConfiguration(fields, key)) <= RefsIn(JObject(fields), configuration)
  {
  }

  /** These items are rewritten and everything owned they refer to is sealed. */
  ghost predicate ItemsDone(p: Package, result: map<nat, SealedDefinition>, items: seq<Json>, mapped: seq<Json>) {
    && |mapped| == |items|
    && forall j | 0 <= j < |items| ::
         AllSealed(p, result, RefsIn(items[j], false)) && mapped[j] == Rename(items[j], false, SealedRef(p, result))
  }

  lemma ItemsNone(p: Package, result: map<nat, SealedDefinition>, items: seq<Json>)
    ensures ItemsDone(p, result, items[..0], [])
  {
  }

  lemma ItemsLater(p: Package, before: map<nat, SealedDefinition>, after: map<nat, SealedDefinition>,
                   items: seq<Json>, i: nat, mapped: seq<Json>, one: Json)
    requires i < |items| && Grown(before, after) && ItemsDone(p, before, items[..i], mapped)
    requires AllSealed(p, after, RefsIn(items[i], false)) && one == Rename(items[i], false, SealedRef(p, after))
    ensures ItemsDone(p, after, items[..i + 1], mapped + [one])
  {
    forall j | 0 <= j < i
      ensures AllSealed(p, after, RefsIn(items[j], false)) && mapped[j] == Rename(items[j], false, SealedRef(p, after))
    {
      assert items[..i][j] == items[j];
      RenameLater(p, before, after, items[j], false);
    }
  }

  lemma ItemsRename(p: Package, result: map<nat, SealedDefinition>, items: seq<Json>, configuration: bool,
                    mapped: seq<Json>)
    requires ItemsDone(p, result, items[..|items|], mapped)
    ensures JArray(mapped) == Rename(JArray(items), configuration, SealedRef(p, result))
    ensures AllSealed(p, result, RefsIn(JArray(items), configuration))
  {
    assert items[..|items|] == items;
    assert mapped == Rename(JArray(items), configuration, SealedRef(p, result)).items;
  }

  /** A field is rewritten and everything owned it refers to is sealed, unless it is data. */
  ghost predicate FieldDone(p: Package, result: map<nat, SealedDefinition>, fields: map<string, Json>,
                            configuration: bool, key: string, mapped: Json)
    requires key in fields
  {
    if Data(fields, configuration, key) then mapped == fields[key]
    else
      && AllSealed(p, result, RefsIn(fields[key], IsConfiguration(fields, key)))
      && mapped == Rename(fields[key], IsConfiguration(fields, key), SealedRef(p, result))
  }

  lemma FieldLater(p: Package, before: map<nat, SealedDefinition>, after: map<nat, SealedDefinition>,
                   fields: map<string, Json>, configuration: bool, key: string, mapped: Json)
    requires key in fields && Grown(before, after) && FieldDone(p, before, fields, configuration, key, mapped)
    ensures FieldDone(p, after, fields, configuration, key, mapped)
  {
    if !Data(fields, configuration, key) {
      RenameLater(p, before, after, fields[key], IsConfiguration(fields, key));
    }
  }

  ghost predicate FieldsDone(p: Package, result: map<nat, SealedDefinition>, fields: map<string, Json>,
                             configuration: bool, mapped: map<string, Json>)
  {
    forall key | key in mapped :: key in fields && FieldDone(p, result, fields, configuration, key, mapped[key])
  }

  lemma FieldsLater(p: Package, before: map<nat, SealedDefinition>, after: map<nat, SealedDefinition>,
                    fields: map<string, Json>, configuration: bool, mapped: map<string, Json>)
    requires Grown(before, after) && FieldsDone(p, before, fields, configuration, mapped)
    ensures FieldsDone(p, after, fields, configuration, mapped)
  {
    forall key | key in mapped ensures FieldDone(p, after, fields, configuration, key, mapped[key]) {
      FieldLater(p, before, after, fields, configuration, key, mapped[key]);
    }
  }

  lemma FieldsRename(p: Package, result: map<nat, SealedDefinition>, fields: map<string, Json>, configuration: bool,
                     mapped: map<string, Json>)
    requires !IsRef(fields) && mapped.Keys == fields.Keys && FieldsDone(p, result, fields, configuration, mapped)
    ensures JObject(mapped) == Rename(JObject(fields), configuration, SealedRef(p, result))
    ensures AllSealed(p, result, RefsIn(JObject(fields), configuration))
  {
    assert mapped == Rename(JObject(fields), configuration, SealedRef(p, result)).fields;
  }
}
