/**
 Options inherited over a DAG of compositions. Every replaceable value is one
 entry; an entry resolves to the value its maximal declarations agree on.
 */
module CompositionOptions {
  import opened Prelude

  datatype OptionKey =
    | Setting(target: string, name: string)
    | Resource(name: string)
    | Reference(name: string)
    | ModelProfile(host: string, name: string)
    | PreflightAnswer(name: string)
    | RuntimeAnswer(name: string)
    | DecisionPolicy
    | Profile
    | Exclude

  datatype Options = Options(
    settings: map<string, map<string, Json>>, resources: map<string, Json>, references: map<string, Json>,
    profiles: map<string, map<string, Json>>, preflight: map<string, Json>, runtime: map<string, Json>,
    decisionPolicy: string, profile: string, exclude: Option<seq<Json>>, bindings: map<string, Json>)

  const NO_OPTIONS := Options(map[], map[], map[], map[], map[], map[], "", "", None, map[])

  function Lookup(m: map<string, Json>, name: string): Option<Json> {
    if name in m then Some(m[name]) else None
  }

  function Lookup2(m: map<string, map<string, Json>>, scope: string, name: string): Option<Json> {
    if scope in m then Lookup(m[scope], name) else None
  }

  function Text(s: string): Option<Json> {
    if s == "" then None else Some(JString(s))
  }

  /** The value declared for one entry. */
  function Get(o: Options, k: OptionKey): Option<Json> {
    match k
    case Setting(target, name) => Lookup2(o.settings, target, name)
    case Resource(name) => Lookup(o.resources, name)
    case Reference(name) => Lookup(o.references, name)
    case ModelProfile(host, name) => Lookup2(o.profiles, host, name)
    case PreflightAnswer(name) => Lookup(o.preflight, name)
    case RuntimeAnswer(name) => Lookup(o.runtime, name)
    case DecisionPolicy => Text(o.decisionPolicy)
    case Profile => Text(o.profile)
    case Exclude => if o.exclude.Some? then Some(JArray(o.exclude.value)) else None
  }

  /** The values an entry of this kind can hold. */
  predicate Fits(k: OptionKey, v: Json) {
    match k
    case DecisionPolicy => v.JString? && v.text != ""
    case Profile => v.JString? && v.text != ""
    case Exclude => v.JArray?
    case _ => true
  }

  function Put2(m: map<string, map<string, Json>>, scope: string, name: string,
                v: Json): map<string, map<string, Json>> {
    m[scope := (if scope in m then m[scope] else map[])[name := v]]
  }

  /** Write one entry and leave every other as it is. */
  function SetOption(o: Options, k: OptionKey, v: Json): Options
    requires Fits(k, v)
  {
    match k
    case Setting(target, name) => o.(settings := Put2(o.settings, target, name, v))
    case Resource(name) => o.(resources := o.resources[name := v])
    case Reference(name) => o.(references := o.references[name := v])
    case ModelProfile(host, name) => o.(profiles := Put2(o.profiles, host, name, v))
    case PreflightAnswer(name) => o.(preflight := o.preflight[name := v])
    case RuntimeAnswer(name) => o.(runtime := o.runtime[name := v])
    case DecisionPolicy => o.(decisionPolicy := v.text)
    case Profile => o.(profile := v.text)
    case Exclude => o.(exclude := Some(v.items))
  }

  lemma SetThenGet(o: Options, k: OptionKey, v: Json, other: OptionKey)
    requires Fits(k, v)
    ensures Get(SetOption(o, k, v), other) == if other == k then Some(v) else Get(o, other)
    ensures SetOption(o, k, v).bindings == o.bindings
  {
  }

  // ----- Splitting and putting back --------------------------------------------------------

  /** Settings written under the owner's own root apply to the root being composed. */
  function Renamed(k: OptionKey, own: string, root: string): OptionKey {
    if k.Setting? && k.target == own then Setting(root, k.name) else k
  }

  /** `entries` holds, under its renamed key, a value for every entry declared in `o`. */
  ghost predicate AreEntries(o: Options, own: string, root: string, entries: map<OptionKey, Json>) {
    && (forall k {:trigger Get(o, k)} | Get(o, k).Some? :: Renamed(k, own, root) in entries)
    && forall k | k in entries :: exists from :: Get(o, from) == Some(entries[k]) && Renamed(from, own, root) == k
  }

  /**
   Where settings land: those under the owner's own root under the composed
   root, the others where they were; and none comes from elsewhere.
   */
  lemma SettingsLand(o: Options, own: string, root: string, entries: map<OptionKey, Json>, target: string, name: string)
    requires AreEntries(o, own, root, entries)
    ensures target in o.settings && name in o.settings[target] ==>
              Setting(if target == own then root else target, name) in entries
    ensures Setting(target, name) in entries ==>
              || (target == root && own in o.settings && name in o.settings[own]
                  && entries[Setting(target, name)] == o.settings[own][name])
              || (target != own && target in o.settings && name in o.settings[target]
                  && entries[Setting(target, name)] == o.settings[target][name])
  {
    if target in o.settings && name in o.settings[target] {
      assert Get(o, Setting(target, name)).Some?;
    }
    if Setting(target, name) in entries {
      var from :| Get(o, from) == Some(entries[Setting(target, name)])
                  && Renamed(from, own, root) == Setting(target, name);
    }
  }

  /** The owner set the same name, to different values, both under its own root and under the composed root. */
  ghost predicate Collides(o: Options, own: string, root: string) {
    exists name :: own != root
      && Lookup2(o.settings, own, name).Some? && Lookup2(o.settings, root, name).Some?
      && Lookup2(o.settings, own, name) != Lookup2(o.settings, root, name)
  }

  function Named(names: set<string>, wrap: string -> OptionKey): set<OptionKey> {
    set name | name in names :: wrap(name)
  }

  function ProfileKeys(profiles: map<string, map<string, Json>>): set<OptionKey> {
    set host, name | host in profiles && name in profiles[host] :: ModelProfile(host, name)
  }

  /** The keys of every entry that is not a setting. */
  function PlainKeys(o: Options): set<OptionKey> {
    Named(o.resources.Keys, (n: string) => Resource(n)) + Named(o.references.Keys, (n: string) => Reference(n))
    + ProfileKeys(o.profiles)
    + Named(o.preflight.Keys, (n: string) => PreflightAnswer(n))
    + Named(o.runtime.Keys, (n: string) => RuntimeAnswer(n))
    + (if o.decisionPolicy != "" then {DecisionPolicy} else {})
    + (if o.profile != "" then {Profile} else {})
    + (if o.exclude.Some? then {Exclude} else {})
  }

  lemma NamedKeys(names: set<string>, k: OptionKey)
    ensures k in Named(names, (n: string) => Resource(n)) <==> k.Resource? && k.name in names
    ensures k in Named(names, (n: string) => Reference(n)) <==> k.Reference? && k.name in names
    ensures k in Named(names, (n: string) => PreflightAnswer(n)) <==> k.PreflightAnswer? && k.name in names
    ensures k in Named(names, (n: string) => RuntimeAnswer(n)) <==> k.RuntimeAnswer? && k.name in names
  {
  }

  lemma PlainKeysAre(o: Options, k: OptionKey)
    ensures k in PlainKeys(o) <==> !k.Setting? && Get(o, k).Some?
  {
    NamedKeys(o.resources.Keys, k);
    NamedKeys(o.references.Keys, k);
    NamedKeys(o.preflight.Keys, k);
    NamedKeys(o.runtime.Keys, k);
    assert k in ProfileKeys(o.profiles) <==> k.ModelProfile? && k.host in o.profiles && k.name in o.profiles[k.host];
  }

  /** Every entry that is not a setting. */
  function PlainEntries(o: Options): map<OptionKey, Json> {
    map k | k in PlainKeys(o) && Get(o, k).Some? :: Get(o, k).value
  }

  lemma PlainEntriesAre(o: Options, k: OptionKey)
    ensures k in PlainEntries(o) <==> !k.Setting? && Get(o, k).Some?
    ensures k in PlainEntries(o) ==> Get(o, k) == Some(PlainEntries(o)[k])
  {
    PlainKeysAre(o, k);
  }

  /** The settings visited so far, each under its renamed target. */
  ghost predicate SettingsSplit(o: Options, own: string, root: string, done: set<string>,
                                entries: map<OptionKey, Json>) {
    && AllSplitFrom(o, own, root, done, entries)
    && forall t, n | t in done && Lookup2(o.settings, t, n).Some? :: Renamed(Setting(t, n), own, root) in entries
  }

  ghost predicate SplitFrom(o: Options, own: string, root: string, target: string, k: OptionKey, v: Json) {
    k.Setting? && Lookup2(o.settings, target, k.name) == Some(v) && Renamed(Setting(target, k.name), own, root) == k
  }

  /** Split the settings; targets and names are visited in no particular order. */
  method SettingEntries(o: Options, own: string, root: string) returns (entries: map<OptionKey, Json>)
    ensures SettingsSplit(o, own, root, o.settings.Keys, entries)
  {
    entries := map[];
    var rest := o.settings.Keys;
    while rest != {}
      invariant rest <= o.settings.Keys && SettingsSplit(o, own, root, o.settings.Keys - rest, entries)
    {
      var target :| target in rest;
      ghost var done := o.settings.Keys - rest;
      rest := rest - {target};
      entries := TargetEntries(o, own, root, done, entries, target);
      assert o.settings.Keys - rest == done + {target};
    }
    assert o.settings.Keys - rest == o.settings.Keys;
  }

  ghost predicate AllSplitFrom(o: Options, own: string, root: string, done: set<string>,
                               entries: map<OptionKey, Json>) {
    forall k | k in entries ::
      k.Setting? && exists target :: target in done && SplitFrom(o, own, root, target, k, entries[k])
  }

  lemma AddSplit(o: Options, own: string, root: string, done: set<string>, entries: map<OptionKey, Json>,
                 target: string, name: string)
    requires AllSplitFrom(o, own, root, done, entries) && target in done && Lookup2(o.settings, target, name).Some?
    ensures AllSplitFrom(o, own, root, done,
                         entries[Renamed(Setting(target, name), own, root) := Lookup2(o.settings, target, name).value])
  {
    var key, v := Renamed(Setting(target, name), own, root), Lookup2(o.settings, target, name).value;
    var more := entries[key := v];
    forall k | k in more ensures k.Setting? && exists t :: t in done && SplitFrom(o, own, root, t, k, more[k]) {
      if k == key {
        assert SplitFrom(o, own, root, target, k, more[k]);
      } else {
        var t :| t in done && SplitFrom(o, own, root, t, k, entries[k]);
        assert SplitFrom(o, own, root, t, k, more[k]);
      }
    }
  }

  lemma SplitFromMore(o: Options, own: string, root: string, done: set<string>, target: string,
                      entries: map<OptionKey, Json>)
    requires AllSplitFrom(o, own, root, done, entries)
    ensures AllSplitFrom(o, own, root, done + {target}, entries)
  {
  }

  method TargetEntries(o: Options, own: string, root: string, ghost done: set<string>, before: map<OptionKey, Json>,
                       target: string)
    returns (entries: map<OptionKey, Json>)
    requires SettingsSplit(o, own, root, done, before) && target in o.settings
    ensures SettingsSplit(o, own, root, done + {target}, entries)
  {
    hide AllSplitFrom;
    SplitFromMore(o, own, root, done, target, before);
    entries := before;
    var values, renamed := o.settings[target], if target == own then root else target;
    var rest := values.Keys;
    while rest != {}
      invariant rest <= values.Keys && AllSplitFrom(o, own, root, done + {target}, entries)
      invariant before.Keys <= entries.Keys
      invariant forall n | n in values && n !in rest :: Setting(renamed, n) in entries
    {
      var name :| name in rest;
      rest := rest - {name};
      AddSplit(o, own, root, done + {target}, entries, target, name);
      entries := entries[Setting(renamed, name) := values[name]];
    }
    forall t, n | t in done + {target} && Lookup2(o.settings, t, n).Some?
      ensures Renamed(Setting(t, n), own, root) in entries {
      if t in done { assert Renamed(Setting(t, n), own, root) in before; }
    }
  }

  /** Split options into entries. */
  method Entries(o: Options, own: string, root: string) returns (entries: map<OptionKey, Json>)
    ensures AreEntries(o, own, root, entries)
  {
    var settings := SettingEntries(o, own, root);
    entries := settings + PlainEntries(o);
    forall k {:trigger Get(o, k)} | Get(o, k).Some? ensures Renamed(k, own, root) in entries {
      PlainEntriesAre(o, k);
    }
    forall k | k in entries ensures exists from :: Get(o, from) == Some(entries[k]) && Renamed(from, own, root) == k {
      PlainEntriesAre(o, k);
      if k in PlainEntries(o) {
        assert Get(o, k) == Some(entries[k]);
      } else {
        var t :| t in o.settings.Keys && SplitFrom(o, own, root, t, k, settings[k]);
        assert Get(o, Setting(t, k.name)) == Some(entries[k]);
      }
    }
  }

  /** Without a collision every entry is determined: each declared value under its renamed key. */
  lemma EntriesDetermined(o: Options, own: string, root: string, entries: map<OptionKey, Json>, k: OptionKey)
    requires AreEntries(o, own, root, entries) && !Collides(o, own, root) && Get(o, k).Some?
    ensures entries[Renamed(k, own, root)] == Get(o, k).value
  {
    var renamed := Renamed(k, own, root);
    var from :| Get(o, from) == Some(entries[renamed]) && Renamed(from, own, root) == renamed;
  }

  /** Without a collision the entries do not depend on the order of visiting. */
  lemma EntriesAgree(o: Options, own: string, root: string, a: map<OptionKey, Json>, b: map<OptionKey, Json>)
    requires AreEntries(o, own, root, a) && AreEntries(o, own, root, b) && !Collides(o, own, root)
    ensures a == b
  {
    forall k | k in a ensures k in b && a[k] == b[k] {
      var from :| Get(o, from) == Some(a[k]) && Renamed(from, own, root) == k;
      EntriesDetermined(o, own, root, b, from);
    }
    forall k | k in b ensures k in a {
      var from :| Get(o, from) == Some(b[k]) && Renamed(from, own, root) == k;
    }
  }

  /** Every possible split of colliding options has another beside it, which holds the other value. */
  lemma CollisionLeavesAnother(o: Options, own: string, root: string, a: map<OptionKey, Json>)
    returns (b: map<OptionKey, Json>)
    requires AreEntries(o, own, root, a) && Collides(o, own, root)
    ensures AreEntries(o, own, root, b) && b != a
  {
    var name :| own != root
      && Lookup2(o.settings, own, name).Some? && Lookup2(o.settings, root, name).Some?
      && Lookup2(o.settings, own, name) != Lookup2(o.settings, root, name);
    var ours, theirs, key := Setting(own, name), Setting(root, name), Setting(root, name);
    assert Get(o, ours).Some? && Renamed(ours, own, root) == key && Renamed(theirs, own, root) == key;
    var from := if Get(o, ours) == Some(a[key]) then theirs else ours;
    b := a[key := Get(o, from).value];
    forall k | k in b ensures exists source :: Get(o, source) == Some(b[k]) && Renamed(source, own, root) == k {
      if k == key {
        assert Get(o, from) == Some(b[k]);
      } else {
        var source :| Get(o, source) == Some(a[k]) && Renamed(source, own, root) == k;
        assert Get(o, source) == Some(b[k]);
      }
    }
  }

  /** Every key that has a declared value. */
  function DeclaredKeys(o: Options): set<OptionKey> {
    PlainKeys(o) + set t, n | t in o.settings && n in o.settings[t] :: Setting(t, n)
  }

  lemma DeclaredKeysAre(o: Options, k: OptionKey)
    ensures k in DeclaredKeys(o) <==> Get(o, k).Some?
  {
    PlainKeysAre(o, k);
    assert k.Setting? ==> (k in DeclaredKeys(o) <==> k.target in o.settings && k.name in o.settings[k.target]);
  }

  /** Where the value of a renamed key can come from: the owner's own root if it declares one there. */
  function Origin(o: Options, own: string, root: string, k: OptionKey): OptionKey {
    if k.Setting? && k.target == root && Lookup2(o.settings, own, k.name).Some? then Setting(own, k.name) else k
  }

  /** Options can always be split. */
  lemma SomeEntries(o: Options, own: string, root: string) returns (entries: map<OptionKey, Json>)
    ensures AreEntries(o, own, root, entries)
  {
    var keys := set k | k in DeclaredKeys(o) :: Renamed(k, own, root);
    forall k | k in keys
      ensures Get(o, Origin(o, own, root, k)).Some? && Renamed(Origin(o, own, root, k), own, root) == k {
      var from :| from in DeclaredKeys(o) && Renamed(from, own, root) == k;
      DeclaredKeysAre(o, from);
    }
    entries := map k | k in keys :: Get(o, Origin(o, own, root, k)).value;
    forall k {:trigger Get(o, k)} | Get(o, k).Some? ensures Renamed(k, own, root) in entries {
      DeclaredKeysAre(o, k);
    }
    forall k | k in entries ensures exists from :: Get(o, from) == Some(entries[k]) && Renamed(from, own, root) == k {
      assert Get(o, Origin(o, own, root, k)) == Some(entries[k]);
    }
  }

  /** The split is one map for every order of visiting exactly if nothing collides under the rename. */
  lemma AmbiguousExactlyWhen(o: Options, own: string, root: string)
    ensures (exists a, b :: AreEntries(o, own, root, a) && AreEntries(o, own, root, b) && a != b)
       <==> Collides(o, own, root)
  {
    if Collides(o, own, root) {
      var a := SomeEntries(o, own, root);
      var b := CollisionLeavesAnother(o, own, root, a);
    }
    forall a, b | AreEntries(o, own, root, a) && AreEntries(o, own, root, b) && !Collides(o, own, root) ensures a == b {
      EntriesAgree(o, own, root, a, b);
    }
  }

  /** The concrete case: both roots set `x`, and either value can be the one that stays. */
  lemma CollisionIsAmbiguous()
    ensures exists o, own, root, a, b ::
              Collides(o, own, root) && AreEntries(o, own, root, a) && AreEntries(o, own, root, b) && a != b
  {
    var o := NO_OPTIONS.(settings := map["own" := map["x" := JInt(1)], "root" := map["x" := JInt(2)]]);
    var key := Setting("root", "x");
    var a, b := map[key := JInt(1)], map[key := JInt(2)];
    assert Get(o, Setting("own", "x")) == Some(JInt(1)) && Get(o, key) == Some(JInt(2));
    assert Lookup2(o.settings, "own", "x") != Lookup2(o.settings, "root", "x");
    assert a[key] != b[key];
    assert AreEntries(o, "own", "root", a);
    assert AreEntries(o, "own", "root", b);
  }

  /** Write the entries of `ks` one after another. */
  function SetAll(o: Options, entries: map<OptionKey, Json>, ks: seq<OptionKey>): Options
    requires forall k | k in ks :: k in entries && Fits(k, entries[k])
  {
    if ks == [] then o
    else SetOption(SetAll(o, entries, ks[..|ks| - 1]), ks[|ks| - 1], entries[ks[|ks| - 1]])
  }

  lemma {:induction false} SetAllThenGet(o: Options, entries: map<OptionKey, Json>, ks: seq<OptionKey>, k: OptionKey)
    requires forall j | j in ks :: j in entries && Fits(j, entries[j])
    ensures Get(SetAll(o, entries, ks), k) == if k in ks then Some(entries[k]) else Get(o, k)
    ensures SetAll(o, entries, ks).bindings == o.bindings
  {
    if ks != [] {
      var front := ks[..|ks| - 1];
      SetAllThenGet(o, entries, front, k);
      SetThenGet(SetAll(o, entries, front), ks[|ks| - 1], entries[ks[|ks| - 1]], k);
      assert ks == front + [ks[|ks| - 1]];
    }
  }

  /** No target or host is listed without a value. */
  ghost predicate Normalised(o: Options) {
    (forall t | t in o.settings :: o.settings[t] != map[]) && (forall h | h in o.profiles :: o.profiles[h] != map[])
  }

  lemma {:induction false} SetAllNormalised(o: Options, entries: map<OptionKey, Json>, ks: seq<OptionKey>)
    requires Normalised(o) && forall j | j in ks :: j in entries && Fits(j, entries[j])
    ensures Normalised(SetAll(o, entries, ks))
  {
    if ks != [] {
      SetAllNormalised(o, entries, ks[..|ks| - 1]);
      var before, k := SetAll(o, entries, ks[..|ks| - 1]), ks[|ks| - 1];
      match k
      case Setting(t, n) => assert n in Put2(before.settings, t, n, entries[k])[t];
      case ModelProfile(h, n) => assert n in Put2(before.profiles, h, n, entries[k])[h];
      case _ =>
    }
  }

  lemma SameNested(a: map<string, map<string, Json>>, b: map<string, map<string, Json>>)
    requires forall s, n :: Lookup2(a, s, n) == Lookup2(b, s, n)
    requires (forall s | s in a :: a[s] != map[]) && (forall s | s in b :: b[s] != map[])
    ensures a == b
  {
    forall s ensures s in a <==> s in b {
      if s in a { var n :| n in a[s]; assert Lookup2(a, s, n) == Lookup2(b, s, n); }
      if s in b { var n :| n in b[s]; assert Lookup2(a, s, n) == Lookup2(b, s, n); }
    }
    forall s | s in a ensures a[s] == b[s] {
      forall n ensures Lookup(a[s], n) == Lookup(b[s], n) {
        assert Lookup2(a, s, n) == Lookup2(b, s, n);
      }
      SameLookups(a[s], b[s]);
    }
  }

  /** Normalised options are determined by their entries. */
  lemma SameEntriesSameOptions(a: Options, b: Options)
    requires Normalised(a) && Normalised(b) && a.bindings == b.bindings
    requires forall k :: Get(a, k) == Get(b, k)
    ensures a == b
  {
    forall s, n ensures Lookup2(a.settings, s, n) == Lookup2(b.settings, s, n) {
      assert Get(a, Setting(s, n)) == Get(b, Setting(s, n));
    }
    SameNested(a.settings, b.settings);
    forall s, n ensures Lookup2(a.profiles, s, n) == Lookup2(b.profiles, s, n) {
      assert Get(a, ModelProfile(s, n)) == Get(b, ModelProfile(s, n));
    }
    SameNested(a.profiles, b.profiles);
    SameFlat(a, b);
    assert Get(a, DecisionPolicy) == Get(b, DecisionPolicy);
    assert Get(a, Profile) == Get(b, Profile);
    assert Get(a, Exclude) == Get(b, Exclude);
  }

  lemma SameFlat(a: Options, b: Options)
    requires forall k :: Get(a, k) == Get(b, k)
    ensures a.resources == b.resources && a.references == b.references && a.preflight == b.preflight
            && a.runtime == b.runtime
  {
    forall n
      ensures Lookup(a.resources, n) == Lookup(b.resources, n) && Lookup(a.references, n) == Lookup(b.references, n)
      ensures Lookup(a.preflight, n) == Lookup(b.preflight, n) && Lookup(a.runtime, n) == Lookup(b.runtime, n)
    {
      assert Get(a, Resource(n)) == Get(b, Resource(n)) && Get(a, Reference(n)) == Get(b, Reference(n));
      assert Get(a, PreflightAnswer(n)) == Get(b, PreflightAnswer(n))
             && Get(a, RuntimeAnswer(n)) == Get(b, RuntimeAnswer(n));
    }
    SameLookups(a.resources, b.resources);
    SameLookups(a.references, b.references);
    SameLookups(a.preflight, b.preflight);
    SameLookups(a.runtime, b.runtime);
  }

  lemma SameLookups(a: map<string, Json>, b: map<string, Json>)
    requires forall n :: Lookup(a, n) == Lookup(b, n)
    ensures a == b
  {
    forall n ensures n in a <==> n in b { assert Lookup(a, n) == Lookup(b, n); }
    forall n | n in a ensures a[n] == b[n] { assert Lookup(a, n) == Lookup(b, n); }
  }

  lemma OwnEntry(o: Options, root: string, entries: map<OptionKey, Json>, k: OptionKey)
    requires AreEntries(o, root, root, entries)
    ensures k in entries ==> Get(o, k) == Some(entries[k]) && Fits(k, entries[k])
    ensures k !in entries ==> Get(o, k) == None
  {
    assert Renamed(k, root, root) == k;
    if k in entries {
      var from :| Get(o, from) == Some(entries[k]) && Renamed(from, root, root) == k;
    }
  }

  /** Splitting normalised options and writing the entries back, in any order, gives the options back. */
  lemma SplitAndSetIsIdentity(o: Options, root: string, entries: map<OptionKey, Json>, ks: seq<OptionKey>)
    requires Normalised(o) && AreEntries(o, root, root, entries)
    requires forall k :: k in ks <==> k in entries
    ensures (forall k | k in ks :: k in entries && Fits(k, entries[k]))
            && SetAll(NO_OPTIONS.(bindings := o.bindings), entries, ks) == o
  {
    hide AreEntries, Get, Renamed, Fits;
    var empty := NO_OPTIONS.(bindings := o.bindings);
    forall k | k in entries ensures Fits(k, entries[k]) {
      OwnEntry(o, root, entries, k);
    }
    var back := SetAll(empty, entries, ks);
    forall k ensures Get(back, k) == Get(o, k) {
      SetAllThenGet(empty, entries, ks, k);
      OwnEntry(o, root, entries, k);
      NothingSet(o.bindings, k);
    }
    SetAllNormalised(empty, entries, ks);
    SetAllThenGet(empty, entries, ks, Profile);
    SameEntriesSameOptions(back, o);
  }

  lemma NothingSet(bindings: map<string, Json>, k: OptionKey)
    ensures Get(NO_OPTIONS.(bindings := bindings), k) == None
  {
  }
}
