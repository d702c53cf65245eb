/**
 Exact references inside definition documents, and the walker that rewrites
 them. Literal values and configuration defaults are data: the walker never
 looks into them, even when they resemble references.
 */
module Definitions {
  import opened Prelude
  import opened Flow

  function RefValue(ref: Ref): Json {
    JObject(map["id" := JString(ref.id), "version" := JString(ref.version), "digest" := JString(ref.digest)])
  }

  predicate Text(fields: map<string, Json>, key: string) {
    key in fields && fields[key].JString?
  }

  /** An object of exactly three texts, `id`, `version` and `digest`, is a reference. */
  predicate IsRef(fields: map<string, Json>) {
    |fields| == 3 && Text(fields, "id") && Text(fields, "version") && Text(fields, "digest")
  }

  function RefOf(fields: map<string, Json>): Ref
    requires IsRef(fields)
  {
    Ref(fields["id"].text, fields["version"].text, fields["digest"].text)
  }

  /** A literal's value and a configuration's default are left as they are. */
  predicate Data(fields: map<string, Json>, configuration: bool, key: string) {
    (key == "value" && "from" in fields && fields["from"] == JString("literal")) || (key == "default" && configuration)
  }

  /** The `configuration` of a declared JSON or blob input. */
  predicate IsConfiguration(fields: map<string, Json>, key: string) {
    && key == "configuration"
    && "required" in fields && fields["required"].JBool?
    && "format" in fields && (fields["format"] == JString("json") || fields["format"] == JString("blob"))
  }

  function Rename(value: Json, configuration: bool, f: Ref -> Ref): Json {
    match value
    case JObject(fields) =>
      if IsRef(fields) then RefValue(f(RefOf(fields)))
      else JObject(map key | key in fields ::
                     if Data(fields, configuration, key) then fields[key]
                     else Rename(fields[key], IsConfiguration(fields, key), f))
    case JArray(items) => JArray(seq(|items|, i requires 0 <= i < |items| => Rename(items[i], false, f)))
    case _ => value
  }

  /** The references the walker visits. */
  function RefsIn(value: Json, configuration: bool): set<Ref> {
    match value
    case JObject(fields) =>
      if IsRef(fields) then {RefOf(fields)}
      else set key, r | key in fields && !Data(fields, configuration, key)
                        && r in RefsIn(fields[key], IsConfiguration(fields, key)) :: r
    case JArray(items) => set i, r | 0 <= i < |items| && r in RefsIn(items[i], false) :: r
    case _ => {}
  }

  lemma RefValueIsRef(ref: Ref)
    ensures RefValue(ref).JObject? && IsRef(RefValue(ref).fields) && RefOf(RefValue(ref).fields) == ref
  {
    var fields := RefValue(ref).fields;
    assert fields.Keys == {"id", "version", "digest"};
    assert "id" != "version" && "id" != "digest" && "version" != "digest" by {
      assert |"id"| == 2 && |"version"| == 7 && |"digest"| == 6;
    }
    assert |fields| == |fields.Keys|;
  }

  lemma RefIsRefValue(fields: map<string, Json>)
    requires IsRef(fields)
    ensures RefValue(RefOf(fields)) == JObject(fields)
  {
    assert |"id"| == 2 && |"version"| == 7 && |"digest"| == 6;
    var keys := {"id", "version", "digest"};
    assert keys <= fields.Keys && |keys| == 3 && |fields.Keys| == 3;
    SubsetOfSameSize(keys, fields.Keys);
  }

  /** Rewriting leaves every text a text with the same characters, and creates none. */
  lemma TextsStay(value: Json, configuration: bool, f: Ref -> Ref)
    ensures Rename(value, configuration, f).JString? <==> value.JString?
    ensures Rename(value, configuration, f).JBool? <==> value.JBool?
    ensures value.JString? ==> Rename(value, configuration, f) == value
  {
  }

  /** Rewriting an object changes neither what is data in it nor where its configuration is. */
  lemma ShapeStays(fields: map<string, Json>, configuration: bool, f: Ref -> Ref)
    requires !IsRef(fields)
    ensures var renamed := Rename(JObject(fields), configuration, f);
            && renamed.JObject? && renamed.fields.Keys == fields.Keys && !IsRef(renamed.fields)
            && forall key :: (Data(renamed.fields, configuration, key) <==> Data(fields, configuration, key))
                             && (IsConfiguration(renamed.fields, key) <==> IsConfiguration(fields, key))
  {
    var renamed := Rename(JObject(fields), configuration, f).fields;
    assert renamed.Keys == fields.Keys;
    assert |renamed| == |renamed.Keys| == |fields.Keys| == |fields|;
    forall key | key in fields
      ensures renamed[key].JString? <==> fields[key].JString?
      ensures renamed[key].JBool? <==> fields[key].JBool?
      ensures fields[key].JString? ==> renamed[key] == fields[key]
    {
      TextsStay(fields[key], IsConfiguration(fields, key), f);
    }
  }

  /** Only the renaming of the visited references matters. */
  lemma {:induction false} RenameAgrees(value: Json, configuration: bool, f: Ref -> Ref, g: Ref -> Ref)
    requires forall r | r in RefsIn(value, configuration) :: f(r) == g(r)
    ensures Rename(value, configuration, f) == Rename(value, configuration, g)
  {
    match value
    case JObject(fields) =>
      if !IsRef(fields) {
        forall key | key in fields && !Data(fields, configuration, key)
          ensures Rename(fields[key], IsConfiguration(fields, key), f)
                    == Rename(fields[key], IsConfiguration(fields, key), g)
        {
          RenameAgrees(fields[key], IsConfiguration(fields, key), f, g);
        }
      }
    case JArray(items) =>
      forall i | 0 <= i < |items| ensures Rename(items[i], false, f) == Rename(items[i], false, g) {
        RenameAgrees(items[i], false, f, g);
      }
    case _ =>
  }

  lemma {:induction false} RenameByIdentity(value: Json, configuration: bool, f: Ref -> Ref)
    requires forall r | r in RefsIn(value, configuration) :: f(r) == r
    ensures Rename(value, configuration, f) == value
  {
    match value
    case JObject(fields) =>
      if IsRef(fields) {
        RefIsRefValue(fields);
      } else {
        forall key | key in fields && !Data(fields, configuration, key)
          ensures Rename(fields[key], IsConfiguration(fields, key), f) == fields[key]
        {
          RenameByIdentity(fields[key], IsConfiguration(fields, key), f);
        }
        assert Rename(value, configuration, f).fields == fields;
      }
    case JArray(items) =>
      forall i | 0 <= i < |items| ensures Rename(items[i], false, f) == items[i] {
        RenameByIdentity(items[i], false, f);
      }
      assert Rename(value, configuration, f).items == items;
    case _ =>
  }

  /** A document that rewriting does not change refers only to what is not rewritten. */
  lemma {:induction false} UnchangedKeepsRefs(value: Json, configuration: bool, f: Ref -> Ref, r: Ref)
    requires Rename(value, configuration, f) == value && r in RefsIn(value, configuration)
    ensures f(r) == r
  {
    match value
    case JObject(fields) =>
      if IsRef(fields) {
        RefValueIsRef(f(r));
      } else {
        var key :| key in fields && !Data(fields, configuration, key)
          && r in RefsIn(fields[key], IsConfiguration(fields, key));
        assert Rename(value, configuration, f).fields[key] == fields[key];
        UnchangedKeepsRefs(fields[key], IsConfiguration(fields, key), f, r);
      }
    case JArray(items) =>
      var i :| 0 <= i < |items| && r in RefsIn(items[i], false);
      assert Rename(value, configuration, f).items[i] == items[i];
      UnchangedKeepsRefs(items[i], false, f, r);
  }

  lemma {:induction false} RenameTwice(value: Json, configuration: bool, f: Ref -> Ref, g: Ref -> Ref)
    ensures Rename(Rename(value, configuration, f), configuration, g) == Rename(value, configuration, r => g(f(r)))
  {
    match value
    case JObject(fields) =>
      if IsRef(fields) {
        RefValueIsRef(f(RefOf(fields)));
      } else {
        ShapeStays(fields, configuration, f);
        var once := Rename(value, configuration, f).fields;
        var both := (r: Ref) => g(f(r));
        forall key | key in fields && !Data(fields, configuration, key)
          ensures Rename(once[key], IsConfiguration(once, key), g)
                    == Rename(fields[key], IsConfiguration(fields, key), both)
        {
          RenameTwice(fields[key], IsConfiguration(fields, key), f, g);
        }
        assert Rename(Rename(value, configuration, f), configuration, g).fields
                 == Rename(value, configuration, both).fields;
      }
    case JArray(items) =>
      forall i | 0 <= i < |items|
        ensures Rename(Rename(items[i], false, f), false, g) == Rename(items[i], false, r => g(f(r)))
      {
        RenameTwice(items[i], false, f, g);
      }
    case _ =>
  }

  /** The references of a rewritten document are the rewritten references. */
  lemma {:induction false} RenamedRefs(value: Json, configuration: bool, f: Ref -> Ref, r: Ref)
    ensures r in RefsIn(Rename(value, configuration, f), configuration)
       <==> exists author :: author in RefsIn(value, configuration) && f(author) == r
  {
    match value
    case JObject(fields) =>
      if IsRef(fields) {
        RefValueIsRef(f(RefOf(fields)));
        assert RefOf(fields) in RefsIn(value, configuration);
      } else {
        ShapeStays(fields, configuration, f);
        var once := Rename(value, configuration, f).fields;
        forall key | key in fields && !Data(fields, configuration, key)
          ensures r in RefsIn(once[key], IsConfiguration(once, key))
             <==> exists author :: author in RefsIn(fields[key], IsConfiguration(fields, key)) && f(author) == r
        {
          RenamedRefs(fields[key], IsConfiguration(fields, key), f, r);
        }
        if r in RefsIn(Rename(value, configuration, f), configuration) {
          var key :| key in once && !Data(once, configuration, key)
            && r in RefsIn(once[key], IsConfiguration(once, key));
          var author :| author in RefsIn(fields[key], IsConfiguration(fields, key)) && f(author) == r;
          assert author in RefsIn(value, configuration);
        }
        if author :| author in RefsIn(value, configuration) && f(author) == r {
          var key :| key in fields && !Data(fields, configuration, key)
            && author in RefsIn(fields[key], IsConfiguration(fields, key));
          assert r in RefsIn(once[key], IsConfiguration(once, key));
        }
      }
    case JArray(items) =>
      var once := Rename(value, configuration, f).items;
      forall i | 0 <= i < |items|
        ensures r in RefsIn(once[i], false) <==> exists author :: author in RefsIn(items[i], false) && f(author) == r
      {
        RenamedRefs(items[i], false, f, r);
      }
      if r in RefsIn(Rename(value, configuration, f), configuration) {
        var i :| 0 <= i < |once| && r in RefsIn(once[i], false);
        var author :| author in RefsIn(items[i], false) && f(author) == r;
        assert author in RefsIn(value, configuration);
      }
      if author :| author in RefsIn(value, configuration) && f(author) == r {
        var i :| 0 <= i < |items| && author in RefsIn(items[i], false);
        assert r in RefsIn(once[i], false);
      }
    case _ =>
  }

  // ----- Data is never changed ---------------------------------------------------------

  datatype Step = Field(key: string) | Item(index: nat)

  /** What lies at a path, if anything does. */
  function At(value: Json, path: seq<Step>): Option<Json> {
    if path == [] then Some(value)
    else match (value, path[0])
      case (JObject(fields), Field(key)) => if key in fields then At(fields[key], path[1..]) else None
      case (JArray(items), Item(i)) => if i < |items| then At(items[i], path[1..]) else None
      case _ => None
  }

  /** The path enters a literal's value or a configuration's default. */
  predicate InData(value: Json, configuration: bool, path: seq<Step>) {
    path != [] && match (value, path[0])
      case (JObject(fields), Field(key)) =>
        !IsRef(fields) && key in fields
        && (Data(fields, configuration, key) || InData(fields[key], IsConfiguration(fields, key), path[1..]))
      case (JArray(items), Item(i)) => i < |items| && InData(items[i], false, path[1..])
      case _ => false
  }

  lemma {:induction false} DataStays(value: Json, configuration: bool, f: Ref -> Ref, path: seq<Step>)
    requires InData(value, configuration, path)
    ensures At(Rename(value, configuration, f), path) == At(value, path)
  {
    match (value, path[0])
    case (JObject(fields), Field(key)) =>
      if !Data(fields, configuration, key) { DataStays(fields[key], IsConfiguration(fields, key), f, path[1..]); }
    case (JArray(items), Item(i)) => DataStays(items[i], false, f, path[1..]);
    case _ =>
  }

  // ----- Where exactly the walker rewrites ------------------------------------------------

  /** An object whose `from` is the text "literal". */
  ghost predicate IsLiteral(value: Option<Json>) {
    && value.Some? && value.value.JObject? && "from" in value.value.fields
    && value.value.fields["from"] == JString("literal")
  }

  /** An object that declares an input: whether it is required, and its format, JSON or blob. */
  ghost predicate DeclaresInput(value: Option<Json>) {
    && value.Some? && value.value.JObject? && "required" in value.value.fields && "format" in value.value.fields
    && value.value.fields["required"].JBool?
    && value.value.fields["format"] in {JString("json"), JString("blob")}
  }

  /** Step `k` of the path enters the value of a literal or the default of an input's configuration. */
  ghost predicate EntersData(value: Json, configuration: bool, path: seq<Step>, k: nat)
    requires k < |path|
  {
    || (path[k] == Field("value") && IsLiteral(At(value, path[..k])))
    || (path[k] == Field("default")
        && if k == 0 then configuration
           else path[k - 1] == Field("configuration") && DeclaresInput(At(value, path[..k - 1])))
  }

  /** The path leads into data, or to it. */
  ghost predicate IsData(value: Json, configuration: bool, path: seq<Step>) {
    exists k: nat :: k < |path| && EntersData(value, configuration, path, k)
  }

  lemma AtPrefix(value: Json, child: Json, path: seq<Step>, k: nat)
    requires 1 <= k <= |path| && At(value, path[..1]) == Some(child)
    ensures At(value, path[..k]) == At(child, path[1..][..k - 1])
  {
    assert path[..k][1..] == path[1..][..k - 1];
    assert path[..1][1..] == [];
  }

  /** Data below a child is data below its parent; the child's place tells whether it is a configuration. */
  lemma DataBelow(value: Json, configuration: bool, child: Json, inner: bool, path: seq<Step>)
    requires path != [] && At(value, path[..1]) == Some(child)
    requires inner <==> path[0] == Field("configuration") && DeclaresInput(Some(value))
    ensures IsData(value, configuration, path)
       <==> EntersData(value, configuration, path, 0) || IsData(child, inner, path[1..])
  {
    forall k: nat | k + 1 < |path|
      ensures EntersData(value, configuration, path, k + 1) <==> EntersData(child, inner, path[1..], k) {
      AtPrefix(value, child, path, k + 1);
      if k > 0 { AtPrefix(value, child, path, k); }
      assert path[..0] == [];
    }
    if IsData(child, inner, path[1..]) {
      var k: nat :| k < |path[1..]| && EntersData(child, inner, path[1..], k);
      assert EntersData(value, configuration, path, k + 1);
    }
    if IsData(value, configuration, path) && !EntersData(value, configuration, path, 0) {
      var k: nat :| k < |path| && EntersData(value, configuration, path, k);
      assert EntersData(child, inner, path[1..], k - 1);
    }
  }

  lemma {:induction false} InDataIs(value: Json, configuration: bool, path: seq<Step>)
    requires At(value, path).Some?
    ensures InData(value, configuration, path) <==> IsData(value, configuration, path)
  {
    if path != [] {
      assert path[..0] == [];
      match (value, path[0])
      case (JObject(fields), Field(key)) =>
        ChildAt(value, path, fields[key]);
        DataBelow(value, configuration, fields[key], IsConfiguration(fields, key), path);
        if IsRef(fields) {
          RefHasTexts(fields, key);
          assert !IsData(fields[key], IsConfiguration(fields, key), path[1..]);
        } else {
          InDataIs(fields[key], IsConfiguration(fields, key), path[1..]);
        }
      case (JArray(items), Item(i)) =>
        ChildAt(value, path, items[i]);
        DataBelow(value, configuration, items[i], false, path);
        InDataIs(items[i], false, path[1..]);
    }
  }

  lemma ChildAt(value: Json, path: seq<Step>, child: Json)
    requires path != [] && At(value, path).Some? && At(value, path) == At(child, path[1..])
    requires match (value, path[0])
             case (JObject(fields), Field(key)) => key in fields && child == fields[key]
             case (JArray(items), Item(i)) => i < |items| && child == items[i]
             case _ => false
    ensures At(value, path[..1]) == Some(child)
  {
    assert path[..1][1..] == [];
  }

  lemma RefHasTexts(fields: map<string, Json>, key: string)
    requires IsRef(fields) && key in fields
    ensures key in {"id", "version", "digest"} && fields[key].JString?
  {
    RefIsRefValue(fields);
  }

  /** A reference that the walker rewrites. */
  ghost predicate IsRewritten(value: Json, configuration: bool, path: seq<Step>) {
    !IsData(value, configuration, path) && exists r :: At(value, path) == Some(RefValue(r))
  }

  ghost predicate SameShape(a: Option<Json>, b: Option<Json>) {
    if a.None? || b.None? then a == b
    else match (a.value, b.value)
      case (JObject(fields), JObject(others)) => fields.Keys == others.Keys
      case (JArray(items), JArray(others)) => |items| == |others|
      case _ => a == b
  }

  /**
   What rewriting does to a document, place by place. The value of a literal
   and the default of an input's configuration stay, with all that is in
   them. A reference anywhere else becomes what it is renamed to. All else
   stays: members, lengths, texts, numbers.
   */
  lemma RewritesExactly(value: Json, configuration: bool, f: Ref -> Ref, path: seq<Step>)
    requires At(value, path).Some?
    ensures var after := Rename(value, configuration, f);
            && (IsData(value, configuration, path) ==> At(after, path) == At(value, path))
            && (forall r | !IsData(value, configuration, path) && At(value, path) == Some(RefValue(r)) ::
                  At(after, path) == Some(RefValue(f(r))))
            && ((forall k | 0 <= k <= |path| :: !IsRewritten(value, configuration, path[..k])) ==>
                  SameShape(At(value, path), At(after, path)))
  {
    InDataIs(value, configuration, path);
    if IsData(value, configuration, path) {
      DataStays(value, configuration, f, path);
    } else {
      forall r | At(value, path) == Some(RefValue(r))
        ensures At(Rename(value, configuration, f), path) == Some(RefValue(f(r))) {
        RefRenamedAt(value, configuration, f, path, r);
      }
      if forall k | 0 <= k <= |path| :: !IsRewritten(value, configuration, path[..k]) {
        forall k | 0 <= k <= |path| ensures !InData(value, configuration, path[..k]) && !RefAt(value, path[..k]) {
          PrefixNotData(value, configuration, path, k);
          if RefAt(value, path[..k]) { RefAtIs(value, path[..k]); }
        }
        ShapeStaysAt(value, configuration, f, path);
      }
    }
  }

  predicate RefAt(value: Json, path: seq<Step>) {
    At(value, path).Some? && At(value, path).value.JObject? && IsRef(At(value, path).value.fields)
  }

  lemma RefAtIs(value: Json, path: seq<Step>)
    requires RefAt(value, path)
    ensures exists r :: At(value, path) == Some(RefValue(r))
  {
    RefIsRefValue(At(value, path).value.fields);
  }

  lemma {:induction false} PrefixExists(value: Json, path: seq<Step>, k: nat)
    requires At(value, path).Some? && k <= |path|
    ensures At(value, path[..k]).Some?
  {
    if k > 0 {
      assert path[..k][1..] == path[1..][..k - 1];
      match (value, path[0])
      case (JObject(fields), Field(key)) => PrefixExists(fields[key], path[1..], k - 1);
      case (JArray(items), Item(i)) => PrefixExists(items[i], path[1..], k - 1);
    }
  }

  lemma PrefixNotData(value: Json, configuration: bool, path: seq<Step>, k: nat)
    requires At(value, path).Some? && !IsData(value, configuration, path) && k <= |path|
    ensures !IsData(value, configuration, path[..k]) && !InData(value, configuration, path[..k])
  {
    PrefixExists(value, path, k);
    InDataIs(value, configuration, path[..k]);
    if j: nat :| j < k && EntersData(value, configuration, path[..k], j) {
      assert path[..k][..j] == path[..j] && (j > 0 ==> path[..k][..j - 1] == path[..j - 1]);
      assert EntersData(value, configuration, path, j);
    }
  }

  lemma {:induction false} RefRenamedAt(value: Json, configuration: bool, f: Ref -> Ref, path: seq<Step>, r: Ref)
    requires At(value, path) == Some(RefValue(r)) && !InData(value, configuration, path)
    ensures At(Rename(value, configuration, f), path) == Some(RefValue(f(r)))
  {
    if path == [] {
      RefValueIsRef(r);
    } else {
      match (value, path[0])
      case (JObject(fields), Field(key)) =>
        if IsRef(fields) { RefHasTexts(fields, key); }
        RefRenamedAt(fields[key], IsConfiguration(fields, key), f, path[1..], r);
      case (JArray(items), Item(i)) => RefRenamedAt(items[i], false, f, path[1..], r);
    }
  }

  lemma {:induction false} ShapeStaysAt(value: Json, configuration: bool, f: Ref -> Ref, path: seq<Step>)
    requires At(value, path).Some?
    requires forall k | 0 <= k <= |path| :: !InData(value, configuration, path[..k]) && !RefAt(value, path[..k])
    ensures SameShape(At(value, path), At(Rename(value, configuration, f), path))
  {
    assert path[..0] == [] && path[..|path|] == path;
    assert !RefAt(value, path[..0]);
    if path != [] {
      match (value, path[0])
      case (JObject(fields), Field(key)) =>
        ChildrenToo(value, configuration, path, fields[key], IsConfiguration(fields, key));
        ShapeStaysAt(fields[key], IsConfiguration(fields, key), f, path[1..]);
      case (JArray(items), Item(i)) =>
        ChildrenToo(value, configuration, path, items[i], false);
        ShapeStaysAt(items[i], false, f, path[1..]);
    }
  }

  lemma ChildrenToo(value: Json, configuration: bool, path: seq<Step>, child: Json, inner: bool)
    requires path != [] && !InData(value, configuration, path[..1]) && !RefAt(value, [])
    requires match (value, path[0])
             case (JObject(fields), Field(key)) =>
               key in fields && child == fields[key] && inner == IsConfiguration(fields, key)
             case (JArray(items), Item(i)) => i < |items| && child == items[i] && !inner
             case _ => false
    requires forall k | 0 <= k <= |path| :: !InData(value, configuration, path[..k]) && !RefAt(value, path[..k])
    ensures forall k | 0 <= k <= |path[1..]| ::
              !InData(child, inner, path[1..][..k]) && !RefAt(child, path[1..][..k])
  {
    forall k | 0 <= k <= |path[1..]| ensures !InData(child, inner, path[1..][..k]) && !RefAt(child, path[1..][..k]) {
      assert path[..k + 1][1..] == path[1..][..k] && path[..k + 1][0] == path[0];
      assert !InData(value, configuration, path[..k + 1]) && !RefAt(value, path[..k + 1]);
    }
  }
}
