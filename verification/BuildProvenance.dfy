/**
 What a sealed package guarantees, how its provenance leads back to the
 authored documents, and the checker that accepts exactly such provenance.
 */
module BuildProvenance {
  import opened Prelude
  import opened Flow
  import opened Definitions
  import opened BuildSealing

  datatype Mapping = Mapping(kind: string, author: Ref, compiled: Ref, path: string)

  datatype Build = Build(components: seq<SealedDefinition>, mappings: seq<Mapping>, rootRef: Ref)

  const NO_REF := Ref("", "", "")

  function Indexed(out: seq<SealedDefinition>): map<nat, SealedDefinition> {
    map i: nat | i < |out| :: out[i]
  }

  /** Every definition of the package was rebuilt exactly once, after everything owned it refers to. */
  ghost predicate IsSealing(p: Package, out: seq<SealedDefinition>) {
    |out| == |p.definitions| && exists finished: seq<nat> :: Progress(p, Indexed(out), finished)
  }

  function MappingOf(c: SealedDefinition): Mapping {
    Mapping(c.kind, c.author, c.ref, c.path)
  }

  function MappingsOf(out: seq<SealedDefinition>): (ms: seq<Mapping>)
    ensures |ms| == |out|
  {
    seq(|out|, i requires 0 <= i < |out| => MappingOf(out[i]))
  }

  /** The root reference recorded while going through the components in order; a second root is refused. */
  function RootOf(out: seq<SealedDefinition>): Result<Ref> {
    if out == [] then Ok(NO_REF)
    else
      var before :- RootOf(out[..|out| - 1]);
      if !out[|out| - 1].root then Ok(before)
      else if before.id != "" then Refused("project_compile_invalid_root")
      else Ok(out[|out| - 1].ref)
  }

  lemma {:induction false} RootRefused(out: seq<SealedDefinition>, i: nat)
    requires i <= |out| && RootOf(out[..i]).Refused?
    ensures RootOf(out).Refused?
  {
    if i < |out| {
      assert out[..|out| - 1][..i] == out[..i];
      RootRefused(out[..|out| - 1], i);
    } else {
      assert out[..i] == out;
    }
  }

  method SealPackage(p: Package) returns (r: Result<Build>)
    ensures r.Ok? ==> IsSealing(p, r.value.components) && Shallow(p)
    ensures r.Ok? ==>
              r.value.mappings == MappingsOf(r.value.components) && RootOf(r.value.components) == Ok(r.value.rootRef)
    ensures r.Refused? ==>
              || (r.code == "project_compile_dependency_cycle" && NotSealable(p))
              || (r.code == "project_compile_invalid_root" && TwoRoots(p))
  {
    hide Stuck, Progress, AllShallow;
    var builder := new Builder(p);
    NothingSealed(p);
    var out: seq<SealedDefinition> := [];
    var mappings: seq<Mapping> := [];
    var rootRef := NO_REF;
    for i := 0 to |p.definitions|
      invariant fresh(builder) && builder.package == p && builder.Valid() && builder.trail == []
      invariant Collected(p, builder.result, out) && |out| == i && AllShallow(p, builder.result)
      invariant mappings == MappingsOf(out) && RootOf(out) == Ok(rootRef)
      invariant rootRef.id != "" ==> exists j :: 0 <= j < i && p.definitions[j].root
    {
      ghost var before, finished := builder.result, builder.finished;
      var ref := builder.Rebuild(i);
      if ref.Refused? {
        StuckOn(p, i, before, finished);
        return Refused(ref.code);
      }
      StillShallow(p, i, before, finished, builder.result);
      var sealed := builder.result[i];
      CollectedGrows(p, builder.result, builder.finished, out);
      OneMore(out, sealed);
      out, mappings := out + [sealed], mappings + [MappingOf(sealed)];
      if p.definitions[i].root {
        if rootRef.id != "" {
          return Refused("project_compile_invalid_root");
        }
        rootRef := ref.value;
      }
    }
    CollectedAll(p, builder.result, builder.finished, out);
    SealedAreShallow(p, builder.result, out);
    return Ok(Build(out, mappings, rootRef));
  }

  ghost predicate LeadsTo(p: Package, i: nat, j: nat, walk: seq<nat>) {
    IsWalk(p, walk) && walk != [] && walk[0] == i && walk[|walk| - 1] == j
  }

  ghost predicate Reaches(p: Package, i: nat, j: nat) {
    exists walk :: LeadsTo(p, i, j, walk)
  }

  /** What the definitions listed before number `i` lead to. */
  ghost function ReachedEarlier(p: Package, i: nat): set<nat> {
    set j | j in Below(|p.definitions|) && exists e: nat :: e < i && Reaches(p, e, j)
  }

  /**
   From some definition a walk over what no earlier listed one leads to closes, or
   is longer than sealing may nest.
   */
  ghost predicate NotSealable(p: Package) {
    exists i :: 0 <= i < |p.definitions| && Stuck(p, i, ReachedEarlier(p, i))
  }

  /** The first listed definition that leads to `j` does so within the limit. */
  ghost predicate ReachedFirst(p: Package, i: nat, j: nat) {
    ReachedWithin(p, i, j) && forall e: nat | e < i :: !Reaches(p, e, j)
  }

  ghost predicate IsShallow(p: Package, j: nat) {
    exists i: nat :: ReachedFirst(p, i, j)
  }

  ghost predicate AllShallow(p: Package, result: map<nat, SealedDefinition>) {
    forall j | j in result :: IsShallow(p, j)
  }

  /** Every definition is led to within the limit by the first listed one that leads to it at all. */
  ghost predicate Shallow(p: Package) {
    forall j: nat | j < |p.definitions| :: IsShallow(p, j)
  }

  /** So a refusal needs a reference cycle or a chain deeper than the limit. */
  lemma NotSealableIsCyclicOrDeep(p: Package)
    requires NotSealable(p)
    ensures CyclicOrDeep(p)
  {
    var i :| 0 <= i < |p.definitions| && Stuck(p, i, ReachedEarlier(p, i));
    StuckIsCyclicOrDeep(p, i, ReachedEarlier(p, i));
  }

  /**
   If even the shortest walk by which the first definition to lead somewhere does
   so is too long, the condition of a refusal holds too.
   */
  lemma NotShallowIsNotSealable(p: Package)
    requires !Shallow(p)
    ensures NotSealable(p)
  {
    var j: nat :| j < |p.definitions| && !IsShallow(p, j);
    assert LeadsTo(p, j, j, [j]);
    var i := FirstThatReaches(p, j, j);
    assert !ReachedFirst(p, i, j);
    var walk :| LeadsTo(p, i, j, walk);
    if |walk| <= MAX_DEPTH { assert EndsWithin(p, i, j, walk); }
    forall k | 0 <= k < |walk| ensures walk[k] !in ReachedEarlier(p, i) {
      if walk[k] in ReachedEarlier(p, i) {
        var e: nat :| e < i && Reaches(p, e, walk[k]);
        ReachesOn(p, e, walk, k);
      }
    }
    assert StuckAlong(p, i, ReachedEarlier(p, i), walk);
  }

  lemma ReachesOn(p: Package, e: nat, walk: seq<nat>, k: nat)
    requires IsWalk(p, walk) && k < |walk| && Reaches(p, e, walk[k])
    ensures Reaches(p, e, walk[|walk| - 1])
  {
    var to :| LeadsTo(p, e, walk[k], to);
    var on := to + walk[k + 1..];
    assert on[|on| - 1] == walk[|walk| - 1];
    assert LeadsTo(p, e, walk[|walk| - 1], on);
  }

  lemma {:induction false} FirstThatReaches(p: Package, bound: nat, j: nat) returns (i: nat)
    requires Reaches(p, bound, j)
    ensures Reaches(p, i, j) && forall e: nat | e < i :: !Reaches(p, e, j)
    decreases bound
  {
    if e: nat :| e < bound && Reaches(p, e, j) {
      i := FirstThatReaches(p, e, j);
    } else {
      i := bound;
    }
  }

  /** Every definition is listed after those it refers to. */
  ghost predicate ReferentsFirst(p: Package) {
    forall k: nat, j: nat {:trigger RefersTo(p, k, j)} | k < |p.definitions| && RefersTo(p, k, j) :: j < k
  }

  /**
   Listed in such an order a package is sealed however deep its references go: the
   limit is on what is still unsealed.
   */
  lemma ReferentsFirstIsSealable(p: Package)
    requires ReferentsFirst(p)
    ensures !NotSealable(p)
  {
    forall i: nat, walk: seq<nat> | i < |p.definitions| ensures !StuckAlong(p, i, ReachedEarlier(p, i), walk) {
      if IsWalk(p, walk) && |walk| > 1 && walk[0] == i {
        assert RefersTo(p, walk[0], walk[1]);
        assert LeadsTo(p, walk[1], walk[1], [walk[1]]);
        assert walk[1] < i && Reaches(p, walk[1], walk[1]);
        assert walk[1] in ReachedEarlier(p, i);
      }
    }
  }

  /** Whatever a sealed definition leads to is sealed. */
  lemma {:induction false} SealedIsClosed(p: Package, sealed: map<nat, SealedDefinition>, finished: seq<nat>,
                                          walk: seq<nat>, k: nat)
    requires Progress(p, sealed, finished) && IsWalk(p, walk) && k < |walk| && walk[0] in sealed
    ensures walk[k] in sealed
  {
    if k > 0 {
      SealedIsClosed(p, sealed, finished, walk, k - 1);
      assert RefersTo(p, walk[k - 1], walk[k]);
      var at :| 0 <= at < |finished| && finished[at] == walk[k - 1];
      assert RefersBack(p, finished, at);
      assert walk[k] in finished[..at];
    }
  }

  /** When number `i` comes up, everything the earlier ones lead to is sealed. */
  lemma EarlierIsSealed(p: Package, i: nat, sealed: map<nat, SealedDefinition>, finished: seq<nat>, e: nat, j: nat)
    requires Progress(p, sealed, finished) && e < i && Reaches(p, e, j)
    requires forall k: nat | k < i :: k in sealed
    ensures j in sealed
  {
    var walk :| LeadsTo(p, e, j, walk);
    SealedIsClosed(p, sealed, finished, walk, |walk| - 1);
  }

  lemma StuckOn(p: Package, i: nat, sealed: map<nat, SealedDefinition>, finished: seq<nat>)
    requires Progress(p, sealed, finished) && i < |p.definitions| && Stuck(p, i, sealed.Keys)
    requires forall j: nat | j < i :: j in sealed
    ensures NotSealable(p)
  {
    hide Progress;
    var walk :| StuckAlong(p, i, sealed.Keys, walk);
    forall j | j in ReachedEarlier(p, i) ensures j in sealed {
      var e: nat :| e < i && Reaches(p, e, j);
      EarlierIsSealed(p, i, sealed, finished, e, j);
    }
    assert StuckAlong(p, i, ReachedEarlier(p, i), walk);
  }

  lemma NothingSealed(p: Package)
    ensures AllShallow(p, map[])
  {
  }

  lemma StillShallow(p: Package, i: nat, before: map<nat, SealedDefinition>, finished: seq<nat>,
                     after: map<nat, SealedDefinition>)
    requires Progress(p, before, finished) && AllShallow(p, before) && Extends(p, i, before, after)
    requires forall j: nat | j < i :: j in before
    ensures AllShallow(p, after)
  {
    hide Progress;
    forall j | j in after && j !in before ensures ReachedFirst(p, i, j) {
      forall e: nat | e < i && Reaches(p, e, j) ensures false {
        EarlierIsSealed(p, i, before, finished, e, j);
      }
    }
  }

  lemma SealedAreShallow(p: Package, result: map<nat, SealedDefinition>, out: seq<SealedDefinition>)
    requires Collected(p, result, out) && |out| == |p.definitions| && AllShallow(p, result)
    ensures Shallow(p)
  {
    forall j: nat | j < |out| ensures IsShallow(p, j) { assert j in result; }
  }

  /** `out` lists the sealed definitions from the first on. */
  ghost predicate Collected(p: Package, result: map<nat, SealedDefinition>, out: seq<SealedDefinition>) {
    |out| <= |p.definitions| && forall j: nat | j < |out| :: j in result && out[j] == result[j]
  }

  lemma CollectedGrows(p: Package, result: map<nat, SealedDefinition>, finished: seq<nat>, out: seq<SealedDefinition>)
    requires Progress(p, result, finished) && Collected(p, result, out) && |out| in result
    ensures |out| < |p.definitions| && result[|out|].root == p.definitions[|out|].root
    ensures Collected(p, result, out + [result[|out|]])
  {
    assert |out| in finished;
    assert result[|out|] == SealOf(p, result, |out|);
  }

  lemma OneMore(out: seq<SealedDefinition>, c: SealedDefinition)
    ensures MappingsOf(out + [c]) == MappingsOf(out) + [MappingOf(c)]
    ensures RootOf(out).Ok? ==>
              RootOf(out + [c]) == if !c.root then RootOf(out)
                                   else if RootOf(out).value.id != "" then Refused("project_compile_invalid_root")
                                   else Ok(c.ref)
  {
    assert (out + [c])[..|out|] == out;
  }

  lemma CollectedAll(p: Package, result: map<nat, SealedDefinition>, finished: seq<nat>, out: seq<SealedDefinition>)
    requires Progress(p, result, finished) && Collected(p, result, out) && |out| == |p.definitions|
    ensures IsSealing(p, out)
  {
    assert Indexed(out) == result by {
      forall j | j in result ensures j < |out| {
        assert j in finished;
      }
    }
  }

  ghost predicate TwoRoots(p: Package) {
    exists i, j :: 0 <= i < j < |p.definitions| && p.definitions[i].root && p.definitions[j].root
  }

  // ----- The reference graph ----------------------------------------------------------------

  lemma {:induction false} WalkGoesBack(p: Package, result: map<nat, SealedDefinition>, finished: seq<nat>,
                                        walk: seq<nat>, k: nat)
    requires Progress(p, result, finished) && (forall i: nat | i < |p.definitions| :: i in result)
    requires IsWalk(p, walk) && k < |walk|
    ensures exists a, b :: 0 <= b <= a < |finished| && a - b >= k && finished[a] == walk[0] && finished[b] == walk[k]
  {
    if k == 0 {
      assert walk[0] in finished;
    } else {
      WalkGoesBack(p, result, finished, walk, k - 1);
      var a, b :| 0 <= b <= a < |finished| && a - b >= k - 1 && finished[a] == walk[0] && finished[b] == walk[k - 1];
      assert RefersTo(p, walk[k - 1], walk[k]);
      var r :| r in Visited(p.definitions[walk[k - 1]]) && Owned(p, r) == Some(walk[k]);
      assert RefersBack(p, finished, b);
      assert walk[k] in finished[..b];
    }
  }

  /** A sealed package has no reference cycle, and no walk longer than its number of definitions. */
  lemma SealedIsAcyclic(p: Package, out: seq<SealedDefinition>, walk: seq<nat>)
    requires IsSealing(p, out) && IsWalk(p, walk)
    ensures !Closed(walk) && |walk| <= |p.definitions|
  {
    var finished: seq<nat> :| Progress(p, Indexed(out), finished);
    if walk != [] {
      WalkGoesBack(p, Indexed(out), finished, walk, |walk| - 1);
      DistinctSize(finished);
      assert Elements(finished) <= Below(|p.definitions|);
      SubsetSize(Elements(finished), Below(|p.definitions|));
      RangeSize(|p.definitions|);
    }
  }

  lemma SealedAt(p: Package, out: seq<SealedDefinition>, i: nat)
    requires IsSealing(p, out) && i < |out|
    ensures i < |p.definitions| && out[i] == SealOf(p, Indexed(out), i)
  {
    var finished: seq<nat> :| Progress(p, Indexed(out), finished);
    assert i in finished;
  }

  /**
   A sealed definition field by field: kind, author and root mark as they
   were, the version of this build, the digest of the final document, which
   states that version; a context is left as it is, a schema except for the
   version. Its mapping and its path go with it.
   */
  lemma SealedFields(p: Package, out: seq<SealedDefinition>, i: nat)
    requires IsSealing(p, out) && i < |out|
    ensures i < |p.definitions|
    ensures var c, d := out[i], p.definitions[i];
            && c.kind == d.kind && c.author == d.ref && c.root == d.root && c.path == PathOf(d.kind, i)
            && c.ref.id == d.ref.id && c.ref.version == (p.hashes.version)(d.kind, d.ref.id, d.ref.version)
            && (d.kind == "context" ==> c.doc == d.doc && c.ref.digest == d.ref.digest)
            && (d.kind != "context" ==> c.ref.digest == (p.hashes.digest)(c.doc))
            && (d.kind != "context" && d.doc.JObject? && !IsRef(d.doc.fields) ==>
                  c.doc.JObject? && "version" in c.doc.fields && c.doc.fields["version"] == JString(c.ref.version))
            && (d.kind == "schema" && d.doc.JObject? ==>
                  c.doc == JObject(d.doc.fields["version" := JString(c.ref.version)]))
            && MappingsOf(out)[i] == Mapping(d.kind, d.ref, c.ref, c.path)
  {
    hide IsSealing;
    SealedAt(p, out, i);
    var d := p.definitions[i];
    if d.doc.JObject? && !IsRef(d.doc.fields) { ShapeStays(d.doc.fields, false, SealedRef(p, Indexed(out))); }
  }

  /** Two roots are refused, and only they are. */
  lemma {:induction false} OneRootExactlyWhen(out: seq<SealedDefinition>)
    requires forall c | c in out :: c.ref.id != ""
    ensures RootOf(out).Ok? <==> forall i, j | 0 <= i < j < |out| :: !(out[i].root && out[j].root)
    ensures RootOf(out).Ok? ==> forall i | 0 <= i < |out| && out[i].root :: RootOf(out).value == out[i].ref
    ensures RootOf(out).Ok? ==> (RootOf(out).value.id == "" <==> forall i | 0 <= i < |out| :: !out[i].root)
    ensures (forall i | 0 <= i < |out| :: !out[i].root) ==> RootOf(out) == Ok(Ref("", "", ""))
  {
    if out != [] {
      var front, last := out[..|out| - 1], out[|out| - 1];
      OneRootExactlyWhen(front);
      assert forall i | 0 <= i < |front| :: front[i] == out[i];
      assert last in out && forall i | 0 <= i < |out| :: out[i] in out;
    }
  }

  /** What an owned reference becomes is the reference of the component sealed for it. */
  lemma SealedRefAt(p: Package, out: seq<SealedDefinition>, r: Ref)
    requires IsSealing(p, out)
    ensures match Owned(p, r)
            case None => SealedRef(p, Indexed(out))(r) == r
            case Some(j) => j < |out| && SealedRef(p, Indexed(out))(r) == out[j].ref
  {
    if Owned(p, r).Some? {
      OwnedIsListed(p.definitions, r);
    }
  }

  /** A definition document is an object that states its own version and is not itself a reference. */
  ghost predicate WellFormedDefinition(d: Definition) {
    d.kind != "context" ==>
      d.doc.JObject? && !IsRef(d.doc.fields) && "version" in d.doc.fields
      && d.doc.fields["version"] == JString(d.ref.version)
  }

  lemma VersionKeepsFields(fields: map<string, Json>, version: string)
    requires !IsRef(fields) && Text(fields, "version")
    ensures var stated := fields["version" := JString(version)];
            && stated.Keys == fields.Keys && !IsRef(stated) && Text(stated, "version")
            && forall key | key in fields ::
                 (Data(stated, false, key) <==> Data(fields, false, key))
                 && (IsConfiguration(stated, key) <==> IsConfiguration(fields, key))
  {
    var stated := fields["version" := JString(version)];
    assert stated.Keys == fields.Keys;
    assert |stated| == |stated.Keys| == |fields.Keys| == |fields|;
    assert |"version"| == 7 && |"from"| == 4 && |"required"| == 8 && |"format"| == 6;
  }

  lemma VersionKeepsRefs(doc: Json, version: string, r: Ref)
    requires doc.JObject? && !IsRef(doc.fields) && Text(doc.fields, "version")
    ensures r in RefsIn(WithVersion(doc, version), false) <==> r in RefsIn(doc, false)
  {
    hide IsRef, Data, IsConfiguration;
    var fields, stated := doc.fields, doc.fields["version" := JString(version)];
    VersionKeepsFields(fields, version);
    assert WithVersion(doc, version) == JObject(stated);
    if r in RefsIn(JObject(stated), false) {
      var key :| key in stated && !Data(stated, false, key) && r in RefsIn(stated[key], IsConfiguration(stated, key));
      assert key != "version";
      assert r in RefsIn(fields[key], IsConfiguration(fields, key));
    }
    if r in RefsIn(doc, false) {
      var key :| key in fields && !Data(fields, false, key) && r in RefsIn(fields[key], IsConfiguration(fields, key));
      assert key != "version";
      assert r in RefsIn(stated[key], IsConfiguration(stated, key));
    }
  }

  lemma VersionKeepsRename(doc: Json, version: string, f: Ref -> Ref)
    requires doc.JObject? && !IsRef(doc.fields) && Text(doc.fields, "version")
    ensures Rename(WithVersion(doc, version), false, f) == WithVersion(Rename(doc, false, f), version)
  {
    hide IsRef, Data, IsConfiguration, Text;
    VersionKeepsFields(doc.fields, version);
    assert Rename(WithVersion(doc, version), false, f).fields == WithVersion(Rename(doc, false, f), version).fields;
  }

  /** Restating the version of a document changes none of its references and commutes with renaming them. */
  lemma VersionIsApart(doc: Json, version: string, f: Ref -> Ref)
    requires doc.JObject? && !IsRef(doc.fields) && Text(doc.fields, "version")
    ensures var stated := WithVersion(doc, version);
            && !IsRef(stated.fields) && Text(stated.fields, "version")
            && RefsIn(stated, false) == RefsIn(doc, false)
            && Rename(stated, false, f) == WithVersion(Rename(doc, false, f), version)
  {
    hide IsRef, Text, RefsIn, Rename;
    VersionKeepsFields(doc.fields, version);
    forall r ensures r in RefsIn(WithVersion(doc, version), false) <==> r in RefsIn(doc, false)
    { VersionKeepsRefs(doc, version, r); }
    VersionKeepsRename(doc, version, f);
  }

  /**
   Every reference in a sealed document either is an authored reference to
   something outside the package, or names a sealed component by its own
   reference, whose digest is the digest of that component's final document.
   */
  lemma SealedReferencesResolve(p: Package, out: seq<SealedDefinition>, i: nat, r: Ref)
    requires IsSealing(p, out) && i < |out| && WellFormedDefinition(p.definitions[i])
    requires out[i].kind != "context" && out[i].kind != "schema" && r in RefsIn(out[i].doc, false)
    ensures || (r in Visited(p.definitions[i]) && Owned(p, r).None?)
            || exists j :: 0 <= j < |out| && RefersTo(p, i, j) && out[j].ref == r
                 && (out[j].kind != "context" ==> r.digest == (p.hashes.digest)(out[j].doc))
  {
    hide IsSealing, Rename, RefsIn, IsRef, Progress;
    SealedAt(p, out, i);
    var d, f := p.definitions[i], SealedRef(p, Indexed(out));
    StatedVersion(d, out[i].ref.version, f);
    RenamedRefs(d.doc, false, f, r);
    var a :| a in RefsIn(d.doc, false) && f(a) == r;
    SealedRefAt(p, out, a);
    if Owned(p, a).Some? {
      var j := Owned(p, a).value;
      assert RefersTo(p, i, j);
      SealedAt(p, out, j);
    }
  }

  /** Renaming keeps the shape of a definition, and stating its version then touches none of its references. */
  lemma StatedVersion(d: Definition, version: string, f: Ref -> Ref)
    requires WellFormedDefinition(d) && d.kind != "context"
    ensures RefsIn(WithVersion(Rename(d.doc, false, f), version), false) == RefsIn(Rename(d.doc, false, f), false)
  {
    ShapeStays(d.doc.fields, false, f);
    TextsStay(d.doc.fields["version"], false, f);
    VersionIsApart(Rename(d.doc, false, f), version, f);
  }

  // ----- Back to the authored documents ------------------------------------------------------------

  ghost predicate DistinctCompiled(mappings: seq<Mapping>) {
    forall i, j | 0 <= i < j < |mappings| :: mappings[i].compiled != mappings[j].compiled
  }

  /** The author's reference behind a compiled one, and any other reference as it is. */
  function AuthorRef(mappings: seq<Mapping>): Ref -> Ref {
    (r: Ref) => if exists i :: 0 <= i < |mappings| && mappings[i].compiled == r then FirstAuthor(mappings, r) else r
  }

  function FirstAuthor(mappings: seq<Mapping>, r: Ref): Ref {
    if mappings == [] then r
    else if mappings[0].compiled == r then mappings[0].author
    else FirstAuthor(mappings[1..], r)
  }

  lemma {:induction false} FirstAuthorIs(mappings: seq<Mapping>, i: nat)
    requires i < |mappings| && DistinctCompiled(mappings)
    ensures FirstAuthor(mappings, mappings[i].compiled) == mappings[i].author
    decreases i
  {
    if i > 0 {
      assert mappings[0].compiled != mappings[i].compiled;
      FirstAuthorIs(mappings[1..], i - 1);
    }
  }

  /** Nothing the author refers to outside the package is mistaken for a compiled component. */
  ghost predicate NoStrays(p: Package, mappings: seq<Mapping>, i: nat)
    requires i < |p.definitions|
  {
    forall r, k | r in Visited(p.definitions[i]) && Owned(p, r).None? && 0 <= k < |mappings| ::
      mappings[k].compiled != r
  }

  /** The version hash tells kinds, identities and authored versions apart. */
  ghost predicate VersionInjective(hashes: Hashes) {
    forall k, l: string, a, b: Ref | CompiledVersion(hashes, k, a) == CompiledVersion(hashes, l, b) ::
      k == l && a.id == b.id && a.version == b.version
  }

  /** What adding components to a package refuses otherwise: no two have the same identity and version. */
  ghost predicate DistinctIdentities(p: Package) {
    forall i, j | 0 <= i < j < |p.definitions| ::
      p.definitions[i].ref.id != p.definitions[j].ref.id || p.definitions[i].ref.version != p.definitions[j].ref.version
  }

  /** So the definitions of a package are compiled under different references. */
  lemma CompiledDiffer(p: Package, out: seq<SealedDefinition>)
    requires IsSealing(p, out) && VersionInjective(p.hashes) && DistinctIdentities(p)
    ensures DistinctCompiled(MappingsOf(out))
  {
    hide IsSealing;
    forall i: nat, j: nat | i < j < |out| ensures MappingsOf(out)[i].compiled != MappingsOf(out)[j].compiled {
      SealedAt(p, out, i);
      SealedAt(p, out, j);
    }
  }

  /** A document with every compiled reference mapped back and the author's version restored. */
  function Restored(p: Package, out: seq<SealedDefinition>, i: nat): Json
    requires i < |out| && i < |p.definitions|
  {
    var restored := WithVersion(out[i].doc, p.definitions[i].ref.version);
    if out[i].kind == "schema" then restored else Rename(restored, false, AuthorRef(MappingsOf(out)))
  }

  /**
   Mapping every compiled reference back and restoring the author's version
   gives back the authored document, exactly if the document does not itself
   refer to a compiled component of its own package.
   */
  lemma ProvenanceRestoresDocuments(p: Package, out: seq<SealedDefinition>, i: nat)
    requires IsSealing(p, out) && VersionInjective(p.hashes) && DistinctIdentities(p)
    requires i < |out| && WellFormedDefinition(p.definitions[i]) && out[i].kind != "context"
    ensures i < |p.definitions| && (Restored(p, out, i) == p.definitions[i].doc <==> NoStrays(p, MappingsOf(out), i))
  {
    hide IsSealing, RefsIn, Progress, NoStrays, DistinctCompiled, AuthorRef, VersionInjective, DistinctIdentities;
    CompiledDiffer(p, out);
    SealedAt(p, out, i);
    if NoStrays(p, MappingsOf(out), i) {
      RestoredWithoutStrays(p, out, i);
    } else {
      RestoredOnlyWithoutStrays(p, out, i);
    }
  }

  lemma RestoredOnlyWithoutStrays(p: Package, out: seq<SealedDefinition>, i: nat)
    requires IsSealing(p, out) && i < |out| && WellFormedDefinition(p.definitions[i]) && out[i].kind != "context"
    requires DistinctCompiled(MappingsOf(out)) && !NoStrays(p, MappingsOf(out), i)
    ensures Restored(p, out, i) != p.definitions[i].doc
  {
    hide IsSealing, RefsIn, Rename, Restored, Progress, DistinctCompiled, AuthorRef, SealedRef, MappingsOf;
    SealedAt(p, out, i);
    var d := p.definitions[i];
    var r, k :| r in Visited(d) && Owned(p, r).None? && 0 <= k < |MappingsOf(out)| && MappingsOf(out)[k].compiled == r;
    RestoredIsRenamed(p, out, i);
    StrayIsMistaken(p, out, r, k);
    if Restored(p, out, i) == d.doc {
      UnchangedKeepsRefs(d.doc, false, RoundTrip(p, out), r);
    }
  }

  lemma StrayIsMistaken(p: Package, out: seq<SealedDefinition>, r: Ref, k: nat)
    requires IsSealing(p, out) && DistinctCompiled(MappingsOf(out)) && Owned(p, r).None?
    requires k < |out| && MappingsOf(out)[k].compiled == r
    ensures RoundTrip(p, out)(r) != r
  {
    hide IsSealing, DistinctCompiled;
    SealedRefAt(p, out, r);
    FirstAuthorIs(MappingsOf(out), k);
    SealedAt(p, out, k);
    OwnedIsListed(p.definitions, r);
  }

  /** What sealing and then mapping back makes of a reference. */
  function RoundTrip(p: Package, out: seq<SealedDefinition>): Ref -> Ref {
    var f, back := SealedRef(p, Indexed(out)), AuthorRef(MappingsOf(out));
    r => back(f(r))
  }

  lemma RestoredIsRenamed(p: Package, out: seq<SealedDefinition>, i: nat)
    requires IsSealing(p, out) && i < |out| && WellFormedDefinition(p.definitions[i])
    requires out[i].kind != "context" && out[i].kind != "schema"
    ensures Restored(p, out, i) == Rename(p.definitions[i].doc, false, RoundTrip(p, out))
  {
    hide IsSealing, RefsIn, Rename, Progress, AuthorRef, WellFormedDefinition;
    SealedAt(p, out, i);
    var d, f, back := p.definitions[i], SealedRef(p, Indexed(out)), AuthorRef(MappingsOf(out));
    RestoredVersion(d, out[i].ref.version, f, back);
    RenameTwice(d.doc, false, f, back);
  }

  lemma RestoredWithoutStrays(p: Package, out: seq<SealedDefinition>, i: nat)
    requires IsSealing(p, out) && i < |out| && WellFormedDefinition(p.definitions[i]) && out[i].kind != "context"
    requires DistinctCompiled(MappingsOf(out)) && NoStrays(p, MappingsOf(out), i)
    ensures Restored(p, out, i) == p.definitions[i].doc
  {
    hide IsSealing, RefsIn, Rename, Progress, NoStrays, DistinctCompiled, AuthorRef;
    SealedAt(p, out, i);
    var d := p.definitions[i];
    if d.kind == "schema" {
      assert out[i].doc.fields["version" := JString(d.ref.version)] == d.doc.fields;
    } else {
      RestoredIsRenamed(p, out, i);
      forall r | r in RefsIn(d.doc, false) ensures RoundTrip(p, out)(r) == r {
        BackToAuthor(p, out, i, r);
      }
      RenameByIdentity(d.doc, false, RoundTrip(p, out));
    }
  }

  /** Restoring the author's version of a renamed document and renaming back is renaming the document back. */
  lemma RestoredVersion(d: Definition, version: string, f: Ref -> Ref, back: Ref -> Ref)
    requires WellFormedDefinition(d) && d.kind != "context"
    ensures var sealed := WithVersion(Rename(d.doc, false, f), version);
            Rename(WithVersion(sealed, d.ref.version), false, back) == Rename(Rename(d.doc, false, f), false, back)
  {
    var renamed := Rename(d.doc, false, f);
    ShapeStays(d.doc.fields, false, f);
    TextsStay(d.doc.fields["version"], false, f);
    assert WithVersion(WithVersion(renamed, version), d.ref.version).fields == renamed.fields;
  }

  lemma BackToAuthor(p: Package, out: seq<SealedDefinition>, i: nat, r: Ref)
    requires IsSealing(p, out) && i < |out| && r in Visited(p.definitions[i])
    requires DistinctCompiled(MappingsOf(out)) && NoStrays(p, MappingsOf(out), i)
    ensures AuthorRef(MappingsOf(out))(SealedRef(p, Indexed(out))(r)) == r
  {
    var mappings := MappingsOf(out);
    SealedRefAt(p, out, r);
    if Owned(p, r).Some? {
      var j := Owned(p, r).value;
      OwnedIsListed(p.definitions, r);
      SealedAt(p, out, j);
      assert mappings[j].compiled == out[j].ref && mappings[j].author == r;
      FirstAuthorIs(mappings, j);
    }
  }

  // ----- The checker ------------------------------------------------------------------------------------

  predicate Matches(m: Mapping, c: SealedDefinition) {
    c.ref == m.compiled && c.author == m.author && c.kind == m.kind && c.path == m.path
  }

  /** The first exported component a mapping describes. */
  function FirstMatch(m: Mapping, components: seq<SealedDefinition>): (r: Option<nat>)
    ensures match r
            case Some(i) => i < |components| && Matches(m, components[i])
              && forall j | 0 <= j < i :: !Matches(m, components[j])
            case None => forall j | 0 <= j < |components| :: !Matches(m, components[j])
  {
    if components == [] then None
    else
      var before := FirstMatch(m, components[..|components| - 1]);
      if before.Some? then before
      else if Matches(m, components[|components| - 1]) then Some(|components| - 1)
      else None
  }

  predicate MarksRoot(m: Mapping, components: seq<SealedDefinition>, rootRef: Ref) {
    var found := FirstMatch(m, components);
    found.Some? && components[found.value].root && components[found.value].ref == rootRef
      && components[found.value].kind == "workflow"
  }

  function RootMarks(mappings: seq<Mapping>, components: seq<SealedDefinition>, rootRef: Ref): nat {
    if mappings == [] then 0
    else RootMarks(mappings[..|mappings| - 1], components, rootRef)
         + if MarksRoot(mappings[|mappings| - 1], components, rootRef) then 1 else 0
  }

  /** A mapping is sound on its own: same identity, the version of this build, and an exported component. */
  predicate MappingOk(m: Mapping, components: seq<SealedDefinition>, hashes: Hashes) {
    m.author.id == m.compiled.id && m.compiled.version == CompiledVersion(hashes, m.kind, m.author)
    && FirstMatch(m, components).Some?
  }

  /** The mappings name different compiled references, and each is sound. */
  ghost predicate EachOk(mappings: seq<Mapping>, components: seq<SealedDefinition>, hashes: Hashes) {
    DistinctCompiled(mappings) && forall i | 0 <= i < |mappings| :: MappingOk(mappings[i], components, hashes)
  }

  ghost predicate Accepts(mappings: seq<Mapping>, components: seq<SealedDefinition>, rootRef: Ref, hashes: Hashes) {
    |mappings| == |components| && EachOk(mappings, components, hashes) && RootMarks(mappings, components, rootRef) == 1
  }

  function CompiledSet(mappings: seq<Mapping>): set<Ref> {
    set i | 0 <= i < |mappings| :: mappings[i].compiled
  }

  lemma EachOkGrows(mappings: seq<Mapping>, i: nat, components: seq<SealedDefinition>, hashes: Hashes)
    requires i < |mappings|
    ensures EachOk(mappings[..i + 1], components, hashes)
       <==> EachOk(mappings[..i], components, hashes) && mappings[i].compiled !in CompiledSet(mappings[..i])
            && MappingOk(mappings[i], components, hashes)
    ensures CompiledSet(mappings[..i + 1]) == CompiledSet(mappings[..i]) + {mappings[i].compiled}
    ensures EachOk(mappings, components, hashes) ==> EachOk(mappings[..i + 1], components, hashes)
  {
    var before, after := mappings[..i], mappings[..i + 1];
    assert after == before + [mappings[i]];
    if EachOk(after, components, hashes) {
      forall k | 0 <= k < i ensures before[k] == after[k] && before[k].compiled != mappings[i].compiled { }
    }
  }

  method FindComponent(m: Mapping, components: seq<SealedDefinition>) returns (found: Option<nat>)
    ensures found == FirstMatch(m, components)
  {
    for j := 0 to |components|
      invariant forall k | 0 <= k < j :: !Matches(m, components[k])
    {
      if Matches(m, components[j]) {
        return Some(j);
      }
    }
    return None;
  }

  method ValidateBuild(mappings: seq<Mapping>, components: seq<SealedDefinition>, rootRef: Ref,
                       hashes: Hashes) returns (ok: bool)
    ensures ok <==> Accepts(mappings, components, rootRef, hashes)
  {
    if |mappings| != |components| {
      return false;
    }
    var seen: set<Ref>, roots := {}, 0;
    for i := 0 to |mappings|
      invariant seen == CompiledSet(mappings[..i]) && EachOk(mappings[..i], components, hashes)
      invariant roots == RootMarks(mappings[..i], components, rootRef)
    {
      var m := mappings[i];
      EachOkGrows(mappings, i, components, hashes);
      assert mappings[..i + 1][..i] == mappings[..i];
      if m.compiled in seen || m.author.id != m.compiled.id {
        return false;
      }
      if m.compiled.version != CompiledVersion(hashes, m.kind, m.author) {
        return false;
      }
      seen := seen + {m.compiled};
      var found := FindComponent(m, components);
      if found.None? {
        return false;
      }
      var c := components[found.value];
      if c.root && c.ref == rootRef && c.kind == "workflow" {
        roots := roots + 1;
      }
    }
    assert mappings[..|mappings|] == mappings;
    return roots == 1;
  }

  /** A mapping says of an exported component where it came from, what it became, its kind and its path. */
  ghost predicate Describes(m: Mapping, c: SealedDefinition) {
    m.compiled == c.ref && m.author == c.author && m.kind == c.kind && m.path == c.path
  }

  /** The provenance the checker is for. */
  ghost predicate IsProvenance(mappings: seq<Mapping>, components: seq<SealedDefinition>, rootRef: Ref,
                               hashes: Hashes) {
    && |mappings| == |components|
    && (forall i, j | 0 <= i < j < |mappings| :: mappings[i].compiled != mappings[j].compiled)
    && (forall m | m in mappings ::
          && m.author.id == m.compiled.id
          && m.compiled.version == (hashes.version)(m.kind, m.author.id, m.author.version)
          && exists c :: c in components && Describes(m, c))
    && exists c :: c in components && c.root && c.ref == rootRef && c.kind == "workflow"
  }

  lemma MatchedIsDescribed(m: Mapping, components: seq<SealedDefinition>)
    ensures FirstMatch(m, components).Some? <==> exists c :: c in components && Describes(m, c)
    ensures FirstMatch(m, components).Some? ==> Describes(m, components[FirstMatch(m, components).value])
  {
    if c :| c in components && Describes(m, c) {
      var j :| 0 <= j < |components| && components[j] == c;
      assert Matches(m, components[j]);
    }
    var found := FirstMatch(m, components);
    assert found.Some? ==> components[found.value] in components && Describes(m, components[found.value]);
  }

  /** The checker accepts exactly such provenance. */
  lemma AcceptsExactlyWhen(mappings: seq<Mapping>, components: seq<SealedDefinition>, rootRef: Ref, hashes: Hashes)
    ensures Accepts(mappings, components, rootRef, hashes) <==> IsProvenance(mappings, components, rootRef, hashes)
  {
    hide FirstMatch, RootMarks, Describes;
    forall m ensures FirstMatch(m, components).Some? <==> exists c :: c in components && Describes(m, c) {
      MatchedIsDescribed(m, components);
    }
    assert forall i | 0 <= i < |mappings| :: mappings[i] in mappings;
    if |mappings| == |components| && EachOk(mappings, components, hashes) {
      OneRootMark(mappings, components, rootRef);
      RootIsMarked(mappings, components, rootRef);
    }
  }

  /** With a mapping for each, a component is the marked root exactly if one is the root workflow. */
  lemma RootIsMarked(mappings: seq<Mapping>, components: seq<SealedDefinition>, rootRef: Ref)
    requires |mappings| == |components| && DistinctCompiled(mappings)
    requires forall i | 0 <= i < |mappings| :: FirstMatch(mappings[i], components).Some?
    ensures (exists i :: 0 <= i < |mappings| && MarksRoot(mappings[i], components, rootRef))
       <==> exists c :: c in components && c.root && c.ref == rootRef && c.kind == "workflow"
  {
    hide Describes;
    if c :| c in components && c.root && c.ref == rootRef && c.kind == "workflow" {
      var k :| 0 <= k < |components| && components[k] == c;
      var order := Assigned(mappings, components);
      forall i, j | 0 <= i < j < |order| ensures order[i] != order[j] {
        assert components[order[i]].ref == mappings[i].compiled && components[order[j]].ref == mappings[j].compiled;
      }
      Pigeonhole(order, |components|, k);
      var i :| 0 <= i < |order| && order[i] == k;
      assert MarksRoot(mappings[i], components, rootRef);
    }
  }

  /** The component each mapping is first matched with. */
  function Assigned(mappings: seq<Mapping>, components: seq<SealedDefinition>): (order: seq<nat>)
    requires forall m | m in mappings :: FirstMatch(m, components).Some?
    ensures |order| == |mappings|
  {
    seq(|mappings|, i requires 0 <= i < |mappings| => FirstMatch(mappings[i], components).value)
  }

  /** Acceptance puts mappings and exported components in one-to-one correspondence. */
  lemma AcceptedIsBijection(mappings: seq<Mapping>, components: seq<SealedDefinition>, rootRef: Ref, hashes: Hashes,
                            c: nat)
    requires Accepts(mappings, components, rootRef, hashes) && c < |components|
    ensures exists i :: 0 <= i < |mappings| && Matches(mappings[i], components[c])
    ensures forall i, j | 0 <= i < |mappings| && 0 <= j < |mappings|
              && Matches(mappings[i], components[c]) && Matches(mappings[j], components[c]) :: i == j
    ensures forall d | 0 <= d < |components| && components[d].ref == components[c].ref :: d == c
  {
    var order := Assigned(mappings, components);
    forall i, j | 0 <= i < j < |order| ensures order[i] != order[j] {
      assert components[order[i]].ref == mappings[i].compiled && components[order[j]].ref == mappings[j].compiled;
    }
    Pigeonhole(order, |components|, c);
    var i :| 0 <= i < |order| && order[i] == c;
    forall d | 0 <= d < |components| && components[d].ref == components[c].ref ensures d == c {
      Pigeonhole(order, |components|, d);
      var j :| 0 <= j < |order| && order[j] == d;
      assert mappings[i].compiled == components[c].ref == components[d].ref == mappings[j].compiled;
    }
  }

  lemma {:induction false} RootMarksFrom(mappings: seq<Mapping>, components: seq<SealedDefinition>, rootRef: Ref,
                                         z: nat)
    requires DistinctCompiled(mappings) && z < |mappings|
    ensures if MarksRoot(mappings[z], components, rootRef) then RootMarks(mappings, components, rootRef) == 1
            else (forall i | 0 <= i < |mappings| && i != z :: !MarksRoot(mappings[i], components, rootRef))
                 ==> RootMarks(mappings, components, rootRef) == 0
  {
    var front, last := mappings[..|mappings| - 1], mappings[|mappings| - 1];
    if MarksRoot(mappings[z], components, rootRef) {
      assert mappings[z].compiled == rootRef;
      assert forall i | 0 <= i < |mappings| :: MarksRoot(mappings[i], components, rootRef) ==>
               mappings[i].compiled == rootRef;
    }
    if z == |mappings| - 1 {
      if front != [] { RootMarksFrom(front, components, rootRef, 0); }
    } else {
      RootMarksFrom(front, components, rootRef, z);
    }
  }

  /** With distinct compiled references, one root mark is the same as some mapping marking the root. */
  lemma OneRootMark(mappings: seq<Mapping>, components: seq<SealedDefinition>, rootRef: Ref)
    requires DistinctCompiled(mappings)
    ensures RootMarks(mappings, components, rootRef) == 1
       <==> exists i :: 0 <= i < |mappings| && MarksRoot(mappings[i], components, rootRef)
  {
    if i :| 0 <= i < |mappings| && MarksRoot(mappings[i], components, rootRef) {
      RootMarksFrom(mappings, components, rootRef, i);
    } else if mappings != [] {
      RootMarksFrom(mappings, components, rootRef, 0);
    }
  }

  lemma {:induction false} RootOfIs(out: seq<SealedDefinition>)
    requires RootOf(out).Ok? && forall c | c in out :: c.ref.id != ""
    ensures (forall i | 0 <= i < |out| && out[i].root :: out[i].ref == RootOf(out).value)
    ensures (exists i :: 0 <= i < |out| && out[i].root) <==> RootOf(out).value.id != ""
  {
    if out != [] { RootOfIs(out[..|out| - 1]); }
  }

  lemma SealedFacts(p: Package, out: seq<SealedDefinition>)
    requires IsSealing(p, out) && forall d | d in p.definitions :: d.ref.id != ""
    ensures forall i | 0 <= i < |out| :: out[i] == SealOf(p, Indexed(out), i) && out[i].ref.id != ""
  {
    var finished: seq<nat> :| Progress(p, Indexed(out), finished);
    forall i | 0 <= i < |out| ensures out[i] == SealOf(p, Indexed(out), i) && out[i].ref.id != "" {
      assert i in Indexed(out) && i in finished;
      assert p.definitions[i] in p.definitions;
    }
  }

  lemma MappingAt(out: seq<SealedDefinition>, i: nat)
    requires i < |out|
    ensures MappingsOf(out)[i] == MappingOf(out[i]) && Matches(MappingsOf(out)[i], out[i])
    ensures MappingsOf(out)[i].compiled == out[i].ref
  {
  }

  lemma EachMatchesItself(out: seq<SealedDefinition>, i: nat)
    requires i < |out|
    ensures FirstMatch(MappingsOf(out)[i], out).Some?
    ensures DistinctCompiled(MappingsOf(out)) ==> FirstMatch(MappingsOf(out)[i], out) == Some(i)
  {
    hide FirstMatch, MappingsOf;
    var mappings, found := MappingsOf(out), FirstMatch(MappingsOf(out)[i], out);
    MappingAt(out, i);
    assert found.Some?;
    MappingAt(out, found.value);
  }

  /**
   The checker accepts the builder's own output exactly when the compiled references
   differ and the root is a workflow.
   */
  lemma BuiltIsAccepted(p: Package, out: seq<SealedDefinition>, rootRef: Ref)
    requires IsSealing(p, out) && RootOf(out) == Ok(rootRef) && forall d | d in p.definitions :: d.ref.id != ""
    ensures Accepts(MappingsOf(out), out, rootRef, p.hashes)
       <==> DistinctCompiled(MappingsOf(out)) && exists i :: 0 <= i < |out| && out[i].root && out[i].kind == "workflow"
  {
    hide IsSealing, FirstMatch, MappingsOf;
    var mappings := MappingsOf(out);
    SealedFacts(p, out);
    RootOfIs(out);
    forall i | 0 <= i < |mappings| ensures MappingOk(mappings[i], out, p.hashes) {
      EachMatchesItself(out, i);
    }
    if DistinctCompiled(mappings) {
      OneRootMark(mappings, out, rootRef);
      forall i | 0 <= i < |out|
        ensures MarksRoot(mappings[i], out, rootRef) <==> out[i].root && out[i].kind == "workflow"
      {
        EachMatchesItself(out, i);
      }
    }
  }
}
