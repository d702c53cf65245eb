/**
 The monitor's view of related runs: over the forest of parent links it keeps
 every matched run with its ancestors, counts along every walk, and shows one
 level in a fixed order.
 */
module RelatedRuns {
  import opened Prelude
  import opened Provenance

  // ----- Specification -------------------------------------------------------------------

  function Order(all: map<Key, CatalogRun>, k: Key): string {
    if k in all then all[k].created else ""
  }

  function Observed(all: map<Key, CatalogRun>, k: Key): string {
    if k in all then all[k].lastObserved else ""
  }

  /** Runs on display come by creation time, then by key. */
  predicate Before(all: map<Key, CatalogRun>, newestFirst: bool, a: Key, b: Key) {
    if Order(all, a) == Order(all, b) then StringLess(a, b)
    else if newestFirst then StringLess(Order(all, b), Order(all, a))
    else StringLess(Order(all, a), Order(all, b))
  }

  predicate Later(all: map<Key, CatalogRun>, a: Key, b: Key) {
    StringLess(Observed(all, b), Observed(all, a)) || (Observed(all, a) == Observed(all, b) && StringLess(b, a))
  }

  /** A run is included if it matched or is above one that did. */
  ghost predicate Included(parents: map<Key, Key>, matched: seq<Key>, x: Key)
    requires Acyclic(parents)
  {
    exists i :: 0 <= i < |matched| && x in Chain(parents, matched[i])
  }

  /** How many matches lie at `x` or below it. */
  ghost function CountAt(parents: map<Key, Key>, matched: seq<Key>, x: Key): nat
    requires Acyclic(parents)
  {
    if matched == [] then 0
    else CountAt(parents, matched[..|matched| - 1], x) + if x in Chain(parents, matched[|matched| - 1]) then 1 else 0
  }

  /** The runs of a set that lie strictly below `x`. */
  ghost function Beneath(parents: map<Key, Key>, runs: set<Key>, x: Key): set<Key>
    requires Acyclic(parents)
  {
    set k | k in runs && k != x && x in Chain(parents, k)
  }

  function Get(counts: map<Key, nat>, x: Key): nat {
    if x in counts then counts[x] else 0
  }

  function Tip(latest: map<Key, Key>, x: Key): Option<Key> {
    if x in latest then Some(latest[x]) else None
  }

  /** `tip` is the most recently observed of the runs `below`, if there are any. */
  ghost predicate IsLatest(all: map<Key, CatalogRun>, below: set<Key>, tip: Option<Key>) {
    match tip
    case None => below == {}
    case Some(k) => k in below && forall other | other in below && other != k :: Later(all, k, other)
  }

  // ----- Walks that accumulate ---------------------------------------------------------------

  method CountMatches(parents: map<Key, Key>, matched: seq<Key>) returns (kept: set<Key>, counts: map<Key, nat>)
    requires Acyclic(parents)
    ensures forall x :: x in kept <==> Included(parents, matched, x)
    ensures forall x :: Get(counts, x) == CountAt(parents, matched, x)
  {
    kept, counts := {}, map[];
    for n := 0 to |matched|
      invariant forall x :: x in kept <==> Included(parents, matched[..n], x)
      invariant forall x :: Get(counts, x) == CountAt(parents, matched[..n], x)
    {
      assert matched[..n + 1][..n] == matched[..n];
      assert matched[..n + 1] == matched[..n] + [matched[n]];
      kept := IncludeWalk(parents, matched[..n], kept, matched[n]);
      counts := CountWalk(parents, counts, matched[n]);
    }
    assert matched[..|matched|] == matched;
  }

  /** Walk up from `key` and stop at the first run that is already included. */
  method IncludeWalk(parents: map<Key, Key>, ghost matched: seq<Key>, before: set<Key>, key: Key)
    returns (kept: set<Key>)
    requires Acyclic(parents) && forall x :: x in before <==> Included(parents, matched, x)
    ensures forall x :: x in kept <==> Included(parents, matched + [key], x)
  {
    kept := before;
    var at := Some(key);
    ghost var i, path := 0, Chain(parents, key);
    ChainDistinct(parents, key);
    while at.Some? && at.value !in kept
      invariant 0 <= i <= |path| && at == if i < |path| then Some(path[i]) else None
      invariant forall x :: x in kept <==> x in before || x in path[..i]
      decreases |path| - i
    {
      kept := kept + {at.value};
      assert path[..i + 1] == path[..i] + [path[i]];
      if i < |path| - 1 { assert path[i] in parents; }
      at := if at.value in parents then Some(parents[at.value]) else None;
      i := i + 1;
    }
    assert path == path[..i] + path[i..];
    if at.Some? {
      assert path[i] !in path[..i];
      ghost var j :| 0 <= j < |matched| && path[i] in Chain(parents, matched[j]);
      ChainSuffix(parents, key, i);
      forall x | x in path[i..] ensures x in before {
        AboveIsTransitive(parents, matched[j], path[i], x);
      }
    }
    IncludedGrows(parents, matched, key);
  }

  lemma IncludedGrows(parents: map<Key, Key>, matched: seq<Key>, key: Key)
    requires Acyclic(parents)
    ensures forall x ::
              Included(parents, matched + [key], x) <==> Included(parents, matched, x) || x in Chain(parents, key)
  {
    forall x
      ensures Included(parents, matched + [key], x) <==> Included(parents, matched, x) || x in Chain(parents, key) {
      if j :| 0 <= j < |matched| && x in Chain(parents, matched[j]) {
        assert (matched + [key])[j] == matched[j];
      }
      assert (matched + [key])[|matched|] == key;
    }
  }

  /** Add one to every run on the walk up from `key`, `key` included. */
  method CountWalk(parents: map<Key, Key>, before: map<Key, nat>, key: Key) returns (counts: map<Key, nat>)
    requires Acyclic(parents)
    ensures forall x :: Get(counts, x) == Get(before, x) + if x in Chain(parents, key) then 1 else 0
  {
    counts := before;
    var at := Some(key);
    ghost var i, path := 0, Chain(parents, key);
    ChainDistinct(parents, key);
    while at.Some?
      invariant 0 <= i <= |path| && at == if i < |path| then Some(path[i]) else None
      invariant forall x :: Get(counts, x) == Get(before, x) + if x in path[..i] then 1 else 0
      decreases |path| - i
    {
      assert path[..i + 1] == path[..i] + [path[i]] && path[i] !in path[..i];
      counts := counts[at.value := Get(counts, at.value) + 1];
      if i < |path| - 1 { assert path[i] in parents; }
      at := if at.value in parents then Some(parents[at.value]) else None;
      i := i + 1;
    }
    assert path[..i] == path;
  }

  /** The walk above `key` is the walk from `key` without `key`. */
  lemma StrictlyAbove(parents: map<Key, Key>, key: Key, x: Key)
    requires Acyclic(parents)
    ensures x != key && x in Chain(parents, key) <==> key in parents && x in Chain(parents, parents[key])
  {
    ChainStep(parents, key);
    ChainDistinct(parents, key);
    if key in parents {
      var path, rest := Chain(parents, key), Chain(parents, parents[key]);
      forall i | 0 <= i < |rest| ensures rest[i] != key {
        assert path[i + 1] == rest[i] && path[0] != path[i + 1];
      }
    }
  }

  lemma BeneathGrows(parents: map<Key, Key>, done: set<Key>, key: Key, x: Key)
    requires Acyclic(parents) && key !in done
    ensures var above := key in parents && x in Chain(parents, parents[key]);
            && Beneath(parents, done + {key}, x) == Beneath(parents, done, x) + (if above then {key} else {})
            && |Beneath(parents, done + {key}, x)| == |Beneath(parents, done, x)| + if above then 1 else 0
  {
    StrictlyAbove(parents, key, x);
  }

  /** For every run, how many of `kept` lie strictly below it. */
  method CountDescendants(parents: map<Key, Key>, kept: set<Key>) returns (descendants: map<Key, nat>)
    requires Acyclic(parents)
    ensures forall x :: Get(descendants, x) == |Beneath(parents, kept, x)|
  {
    descendants := map[];
    var rest := kept;
    assert forall x :: Beneath(parents, kept - rest, x) == {};
    while rest != {}
      invariant rest <= kept
      invariant forall x :: Get(descendants, x) == |Beneath(parents, kept - rest, x)|
    {
      var key :| key in rest;
      ghost var done := kept - rest;
      ghost var before := descendants;
      rest := rest - {key};
      if key in parents {
        descendants := CountWalk(parents, descendants, parents[key]);
      }
      assert kept - rest == done + {key};
      forall x ensures Get(descendants, x) == |Beneath(parents, kept - rest, x)| {
        BeneathGrows(parents, done, key, x);
        assert Get(before, x) == |Beneath(parents, done, x)|;
      }
    }
    assert kept - rest == kept;
  }

  /** The most recently observed run strictly below each run. */
  method FindLatest(all: map<Key, CatalogRun>, parents: map<Key, Key>) returns (latest: map<Key, Key>)
    requires Acyclic(parents)
    ensures forall x :: IsLatest(all, Beneath(parents, all.Keys, x), Tip(latest, x))
  {
    latest := map[];
    var rest := all.Keys;
    assert forall x :: Beneath(parents, all.Keys - rest, x) == {};
    while rest != {}
      invariant rest <= all.Keys
      invariant forall x :: IsLatest(all, Beneath(parents, all.Keys - rest, x), Tip(latest, x))
    {
      var key :| key in rest;
      ghost var done, before := all.Keys - rest, latest;
      rest := rest - {key};
      if key in parents {
        latest := LatestWalk(all, parents, latest, key, parents[key]);
      }
      assert all.Keys - rest == done + {key};
      forall x ensures IsLatest(all, Beneath(parents, all.Keys - rest, x), Tip(latest, x)) {
        BeneathGrows(parents, done, key, x);
        LatestStep(all, Beneath(parents, done, x), Tip(before, x), key);
      }
    }
    assert all.Keys - rest == all.Keys;
  }

  /** The later of the tip so far and a new run. */
  function Newer(all: map<Key, CatalogRun>, tip: Option<Key>, key: Key): Option<Key> {
    if tip.None? || Later(all, key, tip.value) then Some(key) else tip
  }

  /** Offer `key` as latest descendant to every run on the walk up from `start`. */
  method LatestWalk(all: map<Key, CatalogRun>, parents: map<Key, Key>, before: map<Key, Key>, key: Key, start: Key)
    returns (latest: map<Key, Key>)
    requires Acyclic(parents)
    ensures forall x ::
              Tip(latest, x) == if x in Chain(parents, start) then Newer(all, Tip(before, x), key) else Tip(before, x)
  {
    latest := before;
    var at := Some(start);
    ghost var i, path := 0, Chain(parents, start);
    ChainDistinct(parents, start);
    while at.Some?
      invariant 0 <= i <= |path| && at == if i < |path| then Some(path[i]) else None
      invariant forall x :: Tip(latest, x) == if x in path[..i] then Newer(all, Tip(before, x), key) else Tip(before, x)
      decreases |path| - i
    {
      assert path[..i + 1] == path[..i] + [path[i]] && path[i] !in path[..i];
      if at.value !in latest || Later(all, key, latest[at.value]) {
        latest := latest[at.value := key];
      }
      if i < |path| - 1 { assert path[i] in parents; }
      at := if at.value in parents then Some(parents[at.value]) else None;
      i := i + 1;
    }
    assert path[..i] == path;
  }

  lemma LatestStep(all: map<Key, CatalogRun>, below: set<Key>, tip: Option<Key>, key: Key)
    requires IsLatest(all, below, tip) && key !in below
    ensures IsLatest(all, below + {key}, Newer(all, tip, key))
  {
    if tip.Some? {
      LaterTotal(all, key, tip.value);
      if Later(all, key, tip.value) {
        forall other | other in below && other != tip.value ensures Later(all, key, other) {
          LaterTransitive(all, key, tip.value, other);
        }
      }
    }
  }

  lemma LaterTotal(all: map<Key, CatalogRun>, a: Key, b: Key)
    ensures a != b ==> Later(all, a, b) || Later(all, b, a)
  {
    StringLessTotal(Observed(all, a), Observed(all, b));
    StringLessTotal(a, b);
  }

  lemma LaterTransitive(all: map<Key, CatalogRun>, a: Key, b: Key, d: Key)
    requires Later(all, a, b) && Later(all, b, d)
    ensures Later(all, a, d)
  {
    if StringLess(Observed(all, b), Observed(all, a)) && StringLess(Observed(all, d), Observed(all, b)) {
      StringLessTransitive(Observed(all, d), Observed(all, b), Observed(all, a));
    }
    if StringLess(b, a) && StringLess(d, b) {
      StringLessTransitive(d, b, a);
    }
  }

  // ----- One displayed level ----------------------------------------------------------------

  datatype Row = Row(
    key: Key, children: nat, descendants: nat, matches: nat, context: bool, missingParent: bool, latest: Option<Key>)

  /** The included runs of the level below `root`, or of the top level. */
  ghost predicate AtLevel(parents: map<Key, Key>, matched: seq<Key>, root: Option<Key>, x: Key)
    requires Acyclic(parents)
  {
    Included(parents, matched, x) && (if root.Some? then x in parents && parents[x] == root.value else x !in parents)
  }

  ghost function IncludedChildren(parents: map<Key, Key>, matched: seq<Key>, x: Key): set<Key>
    requires Acyclic(parents)
  {
    set k | k in parents && parents[k] == x && Included(parents, matched, k)
  }

  ghost predicate Sorted(all: map<Key, CatalogRun>, newestFirst: bool, keys: seq<Key>) {
    forall i, j | 0 <= i < j < |keys| :: Before(all, newestFirst, keys[i], keys[j])
  }

  /**
   What the order comes to: creation times run the way asked for, and runs
   created at the same time come by key.
   */
  lemma SortedMeans(all: map<Key, CatalogRun>, newestFirst: bool, keys: seq<Key>)
    requires forall k | k in keys :: k in all
    ensures Sorted(all, newestFirst, keys) <==>
              forall i, j | 0 <= i < j < |keys| ::
                Ordered(all[keys[i]].created, all[keys[j]].created, newestFirst, keys[i], keys[j])
  {
    forall i, j | 0 <= i < j < |keys|
      ensures Before(all, newestFirst, keys[i], keys[j])
         <==> Ordered(all[keys[i]].created, all[keys[j]].created, newestFirst, keys[i], keys[j])
    {
      var a, b := all[keys[i]].created, all[keys[j]].created;
      assert keys[i] in keys && keys[j] in keys;
      StringLessTotal(a, b);
      StringLessIs(a, b);
      StringLessIs(b, a);
      StringLessIs(keys[i], keys[j]);
    }
  }

  ghost predicate Ordered(created: string, next: string, newestFirst: bool, a: Key, b: Key) {
    && (if newestFirst then !Smaller(created, next) else !Smaller(next, created))
    && (created == next ==> Smaller(a, b))
  }

  /** What the tip is: none below was observed later, and of those observed with it, it has the largest key. */
  lemma LatestMeans(all: map<Key, CatalogRun>, below: set<Key>, tip: Key, other: Key)
    requires IsLatest(all, below, Some(tip)) && below <= all.Keys && other in below
    ensures tip in below && !Smaller(all[tip].lastObserved, all[other].lastObserved)
    ensures all[tip].lastObserved == all[other].lastObserved && tip != other ==> Smaller(other, tip)
  {
    StringLessTotal(all[tip].lastObserved, all[other].lastObserved);
    StringLessIs(all[tip].lastObserved, all[other].lastObserved);
    StringLessIs(other, tip);
  }

  ghost function IncludedSet(parents: map<Key, Key>, matched: seq<Key>): (s: set<Key>)
    requires Acyclic(parents)
    ensures forall x :: x in s <==> Included(parents, matched, x)
  {
    if matched == [] then {}
    else
      assert matched == matched[..|matched| - 1] + [matched[|matched| - 1]];
      IncludedGrows(parents, matched[..|matched| - 1], matched[|matched| - 1]);
      var path := Chain(parents, matched[|matched| - 1]);
      IncludedSet(parents, matched[..|matched| - 1]) + set x | x in path
  }

  /** What a displayed row says about its run. */
  ghost predicate RowIs(all: map<Key, CatalogRun>, parents: map<Key, Key>, matched: seq<Key>, row: Row)
    requires Acyclic(parents)
  {
    && row.children == |IncludedChildren(parents, matched, row.key)|
    && row.descendants == |Beneath(parents, IncludedSet(parents, matched), row.key)|
    && row.matches == CountAt(parents, matched, row.key)
    && (row.context <==> row.key !in matched)
    && (row.missingParent <==> row.key in all && all[row.key].forkSource != "" && row.key !in parents)
    && IsLatest(all, Beneath(parents, all.Keys, row.key), row.latest)
  }

  ghost predicate LevelIs(all: map<Key, CatalogRun>, parents: map<Key, Key>, matched: seq<Key>, root: Option<Key>,
                          newestFirst: bool, rows: seq<Row>)
    requires Acyclic(parents)
  {
    var keys := seq(|rows|, i requires 0 <= i < |rows| => rows[i].key);
    && Sorted(all, newestFirst, keys)
    && (forall x :: x in keys <==> AtLevel(parents, matched, root, x))
    && forall i | 0 <= i < |rows| :: RowIs(all, parents, matched, rows[i])
  }

  /** The children of every run, each list in the order its links happened to be visited. */
  method ListChildren(parents: map<Key, Key>) returns (children: map<Key, seq<Key>>)
    ensures forall x :: ChildrenAre(parents, parents.Keys, x, if x in children then children[x] else [])
  {
    children := map[];
    var rest := parents.Keys;
    while rest != {}
      invariant rest <= parents.Keys
      invariant forall x :: ChildrenAre(parents, parents.Keys - rest, x, if x in children then children[x] else [])
    {
      var key :| key in rest;
      ghost var before := children;
      ghost var done := parents.Keys - rest;
      rest := rest - {key};
      var p := parents[key];
      children := children[p := (if p in children then children[p] else []) + [key]];
      assert parents.Keys - rest == done + {key};
      forall x ensures ChildrenAre(parents, parents.Keys - rest, x, if x in children then children[x] else []) {
        assert ChildrenAre(parents, done, x, if x in before then before[x] else []);
      }
    }
    assert parents.Keys - rest == parents.Keys;
  }

  ghost predicate ChildrenAre(parents: map<Key, Key>, done: set<Key>, x: Key, list: seq<Key>) {
    Distinct(list) && forall k :: k in list <==> k in done && k in parents && parents[k] == x
  }

  /** Insert a key into a sorted level. */
  function Insert(all: map<Key, CatalogRun>, newestFirst: bool, k: Key, keys: seq<Key>): seq<Key> {
    if keys == [] || Before(all, newestFirst, k, keys[0]) then [k] + keys
    else [keys[0]] + Insert(all, newestFirst, k, keys[1..])
  }

  function Sort(all: map<Key, CatalogRun>, newestFirst: bool, keys: seq<Key>): seq<Key> {
    if keys == [] then [] else Insert(all, newestFirst, keys[|keys| - 1], Sort(all, newestFirst, keys[..|keys| - 1]))
  }

  lemma BeforeTotal(all: map<Key, CatalogRun>, newestFirst: bool, a: Key, b: Key)
    ensures a != b ==> Before(all, newestFirst, a, b) || Before(all, newestFirst, b, a)
  {
    StringLessTotal(Order(all, a), Order(all, b));
    StringLessTotal(a, b);
  }

  lemma BeforeTransitive(all: map<Key, CatalogRun>, newestFirst: bool, a: Key, b: Key, d: Key)
    requires Before(all, newestFirst, a, b) && Before(all, newestFirst, b, d)
    ensures Before(all, newestFirst, a, d)
  {
    var x, y, z := Order(all, a), Order(all, b), Order(all, d);
    StringLessTotal(x, y);
    StringLessTotal(y, z);
    StringLessTotal(x, z);
    if StringLess(x, y) && StringLess(y, z) { StringLessTransitive(x, y, z); }
    if StringLess(y, x) && StringLess(z, y) { StringLessTransitive(z, y, x); }
    if x == y && y == z { StringLessTransitive(a, b, d); }
  }

  lemma ConsSorted(all: map<Key, CatalogRun>, newestFirst: bool, first: Key, rest: seq<Key>)
    requires Sorted(all, newestFirst, rest) && forall x | x in rest :: Before(all, newestFirst, first, x)
    ensures Sorted(all, newestFirst, [first] + rest)
  {
  }

  lemma {:induction false} InsertSorts(all: map<Key, CatalogRun>, newestFirst: bool, k: Key, keys: seq<Key>)
    requires Sorted(all, newestFirst, keys) && k !in keys
    ensures var r := Insert(all, newestFirst, k, keys);
            Sorted(all, newestFirst, r) && forall x :: x in r <==> x == k || x in keys
  {
    if keys != [] {
      var first, rest := keys[0], keys[1..];
      assert keys == [first] + rest;
      if Before(all, newestFirst, k, first) {
        forall x | x in rest ensures Before(all, newestFirst, k, x) {
          BeforeTransitive(all, newestFirst, k, first, x);
        }
      } else {
        BeforeTotal(all, newestFirst, k, first);
        InsertSorts(all, newestFirst, k, rest);
        ConsSorted(all, newestFirst, first, Insert(all, newestFirst, k, rest));
      }
    }
  }

  lemma {:induction false} SortSorts(all: map<Key, CatalogRun>, newestFirst: bool, keys: seq<Key>)
    requires Distinct(keys)
    ensures var r := Sort(all, newestFirst, keys);
            Sorted(all, newestFirst, r) && forall x :: x in r <==> x in keys
  {
    if keys != [] {
      var front, last := keys[..|keys| - 1], keys[|keys| - 1];
      SortSorts(all, newestFirst, front);
      assert keys == front + [last];
      InsertSorts(all, newestFirst, last, Sort(all, newestFirst, front));
    }
  }

  method LevelKeys(parents: map<Key, Key>, children: map<Key, seq<Key>>, kept: set<Key>,
                   root: Option<Key>) returns (keys: seq<Key>)
    requires forall x :: ChildrenAre(parents, parents.Keys, x, if x in children then children[x] else [])
    ensures Distinct(keys)
    ensures forall x :: x in keys <==> x in kept && if root.Some? then x in parents
            && parents[x] == root.value else x !in parents
  {
    keys := [];
    if root.Some? {
      var list := if root.value in children then children[root.value] else [];
      assert ChildrenAre(parents, parents.Keys, root.value, list);
      for i := 0 to |list|
        invariant Distinct(keys) && forall x :: x in keys <==> x in kept && x in list[..i]
      {
        assert list[..i + 1] == list[..i] + [list[i]];
        if list[i] in kept {
          keys := keys + [list[i]];
        }
      }
      assert list[..|list|] == list;
    } else {
      var rest := kept;
      while rest != {}
        invariant rest <= kept && Distinct(keys)
        invariant forall x :: x in keys <==> x in kept && x !in rest && x !in parents
      {
        var key :| key in rest;
        rest := rest - {key};
        if key !in parents {
          keys := keys + [key];
        }
      }
    }
  }

  method CountVisible(list: seq<Key>, kept: set<Key>) returns (n: nat)
    requires Distinct(list)
    ensures n == |set k | k in list && k in kept|
  {
    n := 0;
    for i := 0 to |list|
      invariant n == |set k | k in list[..i] && k in kept|
    {
      assert list[..i + 1] == list[..i] + [list[i]];
      assert list[i] !in list[..i];
      assert (set k | k in list[..i + 1] && k in kept)
          == (set k | k in list[..i] && k in kept) + if list[i] in kept then {list[i]} else {};
      if list[i] in kept {
        n := n + 1;
      }
    }
    assert list[..|list|] == list;
  }

  /**
   One level of related runs: whatever order the catalog and the links are
   visited in, the rows are the level of some forest of the recorded
   provenance, sorted, with exact counts.
   */
  method ShowRelated(all: map<Key, CatalogRun>, matched: seq<Key>, root: Option<Key>, newestFirst: bool)
    returns (known: bool, rows: seq<Row>, ghost parents: map<Key, Key>)
    ensures IsForest(all, parents)
    ensures known <==> root.None? || root.value in all
    ensures if known then LevelIs(all, parents, matched, root, newestFirst, rows) else rows == []
  {
    var links := LinkParents(all);
    parents := links;
    if root.Some? && root.value !in all {
      return false, [], links;
    }
    known, rows := true, [];
    var children := ListChildren(links);
    var kept, counts := CountMatches(links, matched);
    var keys := LevelKeys(links, children, kept, root);
    SortSorts(all, newestFirst, keys);
    keys := Sort(all, newestFirst, keys);
    assert forall x :: x in keys <==> AtLevel(links, matched, root, x);
    rows := BuildRows(all, links, children, matched, kept, counts, keys);
    assert seq(|rows|, i requires 0 <= i < |rows| => rows[i].key) == keys;
  }

  method BuildRows(all: map<Key, CatalogRun>, links: map<Key, Key>, children: map<Key, seq<Key>>, matched: seq<Key>,
                   kept: set<Key>, counts: map<Key, nat>, keys: seq<Key>) returns (rows: seq<Row>)
    requires Acyclic(links)
    requires forall x :: ChildrenAre(links, links.Keys, x, if x in children then children[x] else [])
    requires forall x :: x in kept <==> Included(links, matched, x)
    requires forall x :: Get(counts, x) == CountAt(links, matched, x)
    ensures |rows| == |keys| && forall j | 0 <= j < |rows| ::
              rows[j].key == keys[j] && RowIs(all, links, matched, rows[j])
  {
    var latest := FindLatest(all, links);
    var descendants := CountDescendants(links, kept);
    assert kept == IncludedSet(links, matched);
    rows := [];
    for i := 0 to |keys|
      invariant |rows| == i && forall j | 0 <= j < i :: rows[j].key == keys[j] && RowIs(all, links, matched, rows[j])
    {
      var key := keys[i];
      var list := if key in children then children[key] else [];
      assert ChildrenAre(links, links.Keys, key, list);
      var visible := CountVisible(list, kept);
      assert (set k | k in list && k in kept) == IncludedChildren(links, matched, key);
      var missing := key in all && all[key].forkSource != "" && key !in links;
      var row := Row(key, visible, Get(descendants, key), Get(counts, key), key !in matched, missing, Tip(latest, key));
      assert RowIs(all, links, matched, row);
      rows := rows + [row];
    }
  }

  // ----- Conservation ------------------------------------------------------------------------

  /** How many of the listed keys lie on a walk. */
  ghost function Hits(ks: seq<Key>, path: seq<Key>): nat {
    if ks == [] then 0 else Hits(ks[..|ks| - 1], path) + if ks[|ks| - 1] in path then 1 else 0
  }

  lemma {:induction false} NoHits(ks: seq<Key>, path: seq<Key>)
    requires forall k | k in ks :: k !in path
    ensures Hits(ks, path) == 0
  {
    if ks != [] { NoHits(ks[..|ks| - 1], path); }
  }

  lemma {:induction false} OneHit(ks: seq<Key>, path: seq<Key>, z: Key)
    requires Distinct(ks) && z in ks && z in path
    requires forall k | k in ks && k in path :: k == z
    ensures Hits(ks, path) == 1
  {
    var front, last := ks[..|ks| - 1], ks[|ks| - 1];
    assert ks == front + [last];
    if last == z {
      assert z !in front;
      NoHits(front, path);
    } else {
      OneHit(front, path, z);
    }
  }

  /** Matches summed over a list of rows. */
  ghost function SumCounts(parents: map<Key, Key>, matched: seq<Key>, ks: seq<Key>): nat
    requires Acyclic(parents)
  {
    if ks == [] then 0 else SumCounts(parents, matched, ks[..|ks| - 1]) + CountAt(parents, matched, ks[|ks| - 1])
  }

  lemma {:induction false} SumAdds(parents: map<Key, Key>, matched: seq<Key>, m: Key, ks: seq<Key>)
    requires Acyclic(parents)
    ensures SumCounts(parents, matched + [m], ks) == SumCounts(parents, matched, ks) + Hits(ks, Chain(parents, m))
  {
    assert (matched + [m])[..|matched|] == matched;
    if ks != [] { SumAdds(parents, matched, m, ks[..|ks| - 1]); }
  }

  lemma {:induction false} SumOfNone(parents: map<Key, Key>, ks: seq<Key>)
    requires Acyclic(parents)
    ensures SumCounts(parents, [], ks) == 0
  {
    if ks != [] { SumOfNone(parents, ks[..|ks| - 1]); }
  }

  /** The matches of the top rows add up to all matches. */
  lemma {:induction false} TopRowsHoldAllMatches(parents: map<Key, Key>, matched: seq<Key>, tops: seq<Key>)
    requires Acyclic(parents) && Distinct(tops) && forall t | t in tops :: t !in parents
    requires forall m | m in matched :: Chain(parents, m)[|Chain(parents, m)| - 1] in tops
    ensures SumCounts(parents, matched, tops) == |matched|
  {
    if matched == [] {
      SumOfNone(parents, tops);
    } else {
      var front, m := matched[..|matched| - 1], matched[|matched| - 1];
      TopRowsHoldAllMatches(parents, front, tops);
      assert matched == front + [m];
      SumAdds(parents, front, m, tops);
      var path := Chain(parents, m);
      forall k | k in tops && k in path ensures k == path[|path| - 1] { RootIsLast(parents, m, k); }
      OneHit(tops, path, path[|path| - 1]);
    }
  }

  ghost function Itself(matched: seq<Key>, x: Key): nat {
    multiset(matched)[x]
  }

  /** Siblings never lie on one walk. */
  lemma OneChildPerWalk(parents: map<Key, Key>, start: Key, a: Key, b: Key)
    requires Acyclic(parents) && a in Chain(parents, start) && b in Chain(parents, start)
    requires a in parents && b in parents && parents[a] == parents[b]
    ensures a == b
  {
    var path := Chain(parents, start);
    var i :| 0 <= i < |path| && path[i] == a;
    var j :| 0 <= j < |path| && path[j] == b;
    ChainDistinct(parents, start);
    assert i < |path| - 1 && j < |path| - 1;
    assert path[i + 1] == path[j + 1];
  }

  /** A walk that passes `x` either starts there or comes through one of its children. */
  lemma ThroughChild(parents: map<Key, Key>, start: Key, x: Key) returns (child: Key)
    requires Acyclic(parents) && x in Chain(parents, start) && x != start
    ensures child in Chain(parents, start) && child in parents && parents[child] == x
  {
    var path := Chain(parents, start);
    var i :| 0 <= i < |path| && path[i] == x;
    child := path[i - 1];
  }

  /** The matches at a row are its own and those of its children's rows. */
  lemma {:induction false} MatchesSplit(parents: map<Key, Key>, matched: seq<Key>, x: Key, children: seq<Key>)
    requires Acyclic(parents) && Distinct(children)
    requires forall k | k in children :: k in parents && parents[k] == x
    requires forall k | k in parents && parents[k] == x && Included(parents, matched, k) :: k in children
    ensures CountAt(parents, matched, x) == Itself(matched, x) + SumCounts(parents, matched, children)
  {
    if matched == [] {
      SumOfNone(parents, children);
    } else {
      var front, m := matched[..|matched| - 1], matched[|matched| - 1];
      assert matched == front + [m];
      IncludedGrows(parents, front, m);
      MatchesSplit(parents, front, x, children);
      SumAdds(parents, front, m, children);
      var path := Chain(parents, m);
      if x in path && x != m {
        var child := ThroughChild(parents, m, x);
        forall k | k in children && k in path ensures k == child { OneChildPerWalk(parents, m, k, child); }
        OneHit(children, path, child);
      } else {
        forall k | k in children ensures k !in path {
          if k in path { ChildOnWalk(parents, m, k); }
        }
        NoHits(children, path);
      }
    }
  }

  lemma ChildOnWalk(parents: map<Key, Key>, start: Key, child: Key)
    requires Acyclic(parents) && child in Chain(parents, start) && child in parents
    ensures parents[child] in Chain(parents, start) && parents[child] != start
  {
    var path := Chain(parents, start);
    var i :| 0 <= i < |path| && path[i] == child;
    ChainDistinct(parents, start);
    assert path[i + 1] == parents[child] && path[0] != path[i + 1];
  }

  // ----- Expanding the whole view ---------------------------------------------------------------

  /** A set of runs that contains the parent of each of its runs. */
  ghost predicate ClosedUpward(parents: map<Key, Key>, kept: set<Key>) {
    forall z | z in kept && z in parents :: parents[z] in kept
  }

  ghost function Subtree(parents: map<Key, Key>, kept: set<Key>, k: Key): set<Key>
    requires Acyclic(parents)
  {
    set x | x in kept && k in Chain(parents, x)
  }

  /** `level` lists, in any order, the kept children of every run. */
  ghost predicate Levels(parents: map<Key, Key>, kept: set<Key>, level: Key -> seq<Key>) {
    forall k {:trigger level(k)} ::
      Distinct(level(k)) && forall x :: x in level(k) <==> x in kept && x in parents && parents[x] == k
  }

  lemma SubtreeShrinks(parents: map<Key, Key>, kept: set<Key>, child: Key)
    requires Acyclic(parents) && child in parents && parents[child] in kept
    ensures |Subtree(parents, kept, child)| < |Subtree(parents, kept, parents[child])|
  {
    var k := parents[child];
    forall x | x in Subtree(parents, kept, child) ensures x in Subtree(parents, kept, k) && x != k {
      ChildOnWalk(parents, x, child);
    }
    ChainStep(parents, k);
    assert k in Subtree(parents, kept, k);
    assert Subtree(parents, kept, child) <= Subtree(parents, kept, k) - {k};
    SubsetSize(Subtree(parents, kept, child), Subtree(parents, kept, k) - {k});
  }

  /** A run followed by everything displayed under it. */
  ghost function Expand(parents: map<Key, Key>, kept: set<Key>, level: Key -> seq<Key>, k: Key): seq<Key>
    requires Acyclic(parents) && Levels(parents, kept, level) && k in kept
    decreases |Subtree(parents, kept, k)|, 1, 0
  {
    forall c | c in level(k) ensures |Subtree(parents, kept, c)| < |Subtree(parents, kept, k)| {
      SubtreeShrinks(parents, kept, c);
    }
    [k] + ExpandAll(parents, kept, level, level(k), |Subtree(parents, kept, k)|)
  }

  ghost function ExpandAll(parents: map<Key, Key>, kept: set<Key>, level: Key -> seq<Key>, ks: seq<Key>,
                           bound: nat): seq<Key>
    requires Acyclic(parents) && Levels(parents, kept, level)
    requires forall c | c in ks :: c in kept && |Subtree(parents, kept, c)| < bound
    decreases bound, 0, |ks|
  {
    if ks == [] then []
    else ExpandAll(parents, kept, level, ks[..|ks| - 1], bound) + Expand(parents, kept, level, ks[|ks| - 1])
  }

  /** Expanding a row lists each kept run of its subtree once and nothing else. */
  lemma {:induction false} ExpandListsSubtree(parents: map<Key, Key>, kept: set<Key>, level: Key -> seq<Key>, k: Key,
                                              x: Key)
    requires Acyclic(parents) && Levels(parents, kept, level) && k in kept
    requires ClosedUpward(parents, kept)
    ensures multiset(Expand(parents, kept, level, k))[x] == if x in Subtree(parents, kept, k) then 1 else 0
    decreases |Subtree(parents, kept, k)|, 1, 0
  {
    forall c | c in level(k) ensures |Subtree(parents, kept, c)| < |Subtree(parents, kept, k)| {
      SubtreeShrinks(parents, kept, c);
    }
    var bound := |Subtree(parents, kept, k)|;
    ExpandAllLists(parents, kept, level, level(k), bound, x);
    var path := Chain(parents, x);
    ChainStep(parents, x);
    if x in kept && k in path && x != k {
      var child := ThroughChild(parents, x, k);
      WalkKept(parents, kept, x, child);
      forall c | c in level(k) && c in path ensures c == child { OneChildPerWalk(parents, x, c, child); }
      OneHit(level(k), path, child);
    } else {
      forall c | c in level(k) ensures c !in path || x !in kept {
        if c in path { ChildOnWalk(parents, x, c); }
      }
      if x in kept { NoHits(level(k), path); }
    }
  }

  lemma {:induction false} ExpandAllLists(parents: map<Key, Key>, kept: set<Key>, level: Key -> seq<Key>, ks: seq<Key>,
                                          bound: nat, x: Key)
    requires Acyclic(parents) && Levels(parents, kept, level)
    requires ClosedUpward(parents, kept)
    requires forall c | c in ks :: c in kept && |Subtree(parents, kept, c)| < bound
    ensures multiset(ExpandAll(parents, kept, level, ks, bound))[x]
         == if x in kept then Hits(ks, Chain(parents, x)) else 0
    decreases bound, 0, |ks|
  {
    if ks != [] {
      ExpandAllLists(parents, kept, level, ks[..|ks| - 1], bound, x);
      ExpandListsSubtree(parents, kept, level, ks[|ks| - 1], x);
    }
  }

  lemma {:induction false} WalkKept(parents: map<Key, Key>, kept: set<Key>, x: Key, y: Key)
    requires Acyclic(parents) && x in kept && y in Chain(parents, x)
    requires ClosedUpward(parents, kept)
    ensures y in kept
    decreases |Chain(parents, x)|
  {
    ChainStep(parents, x);
    if y != x { WalkKept(parents, kept, parents[x], y); }
  }

  lemma IncludedIsClosed(parents: map<Key, Key>, matched: seq<Key>)
    requires Acyclic(parents)
    ensures ClosedUpward(parents, IncludedSet(parents, matched))
  {
    forall y | y in IncludedSet(parents, matched) && y in parents ensures parents[y] in IncludedSet(parents, matched) {
      var i :| 0 <= i < |matched| && y in Chain(parents, matched[i]);
      ChildOnWalk(parents, matched[i], y);
    }
  }

  lemma TopsFit(parents: map<Key, Key>, kept: set<Key>, tops: seq<Key>)
    requires Acyclic(parents) && forall x :: x in tops <==> x in kept && x !in parents
    ensures forall c | c in tops :: c in kept && |Subtree(parents, kept, c)| < |kept| + 1
  {
    forall c | c in tops ensures c in kept && |Subtree(parents, kept, c)| < |kept| + 1 {
      SubsetSize(Subtree(parents, kept, c), kept);
    }
  }

  /** Expanding the top rows all the way down lists every kept run exactly once. */
  lemma ExpansionListsOnce(parents: map<Key, Key>, kept: set<Key>, level: Key -> seq<Key>, tops: seq<Key>, x: Key)
    requires Acyclic(parents) && Levels(parents, kept, level) && Distinct(tops) && ClosedUpward(parents, kept)
    requires forall y :: y in tops <==> y in kept && y !in parents
    requires forall c | c in tops :: c in kept && |Subtree(parents, kept, c)| < |kept| + 1
    ensures multiset(ExpandAll(parents, kept, level, tops, |kept| + 1))[x] == if x in kept then 1 else 0
  {
    ExpandAllLists(parents, kept, level, tops, |kept| + 1, x);
    if x in kept { OneTopPerWalk(parents, kept, tops, x); }
  }

  /** Every row that following the levels down from `tops` displays, in order. */
  ghost function ExpandView(parents: map<Key, Key>, kept: set<Key>, level: Key -> seq<Key>, tops: seq<Key>): seq<Key>
    requires Acyclic(parents) && Levels(parents, kept, level)
    requires forall x :: x in tops <==> x in kept && x !in parents
  {
    TopsFit(parents, kept, tops);
    ExpandAll(parents, kept, level, tops, |kept| + 1)
  }

  lemma SameMultiset(listed: seq<Key>, kept: set<Key>)
    requires forall x :: multiset(listed)[x] == if x in kept then 1 else 0
    ensures multiset(listed) == multiset(kept)
  {
  }

  /**
   Following every displayed level down from the top rows shows each run of
   an upward closed set, such as the included runs, exactly once.
   */
  lemma ExpansionListsEveryRunOnce(parents: map<Key, Key>, kept: set<Key>, level: Key -> seq<Key>, tops: seq<Key>)
    requires Acyclic(parents) && Levels(parents, kept, level) && Distinct(tops) && ClosedUpward(parents, kept)
    requires forall x :: x in tops <==> x in kept && x !in parents
    ensures multiset(ExpandView(parents, kept, level, tops)) == multiset(kept)
  {
    TopsFit(parents, kept, tops);
    var listed := ExpandAll(parents, kept, level, tops, |kept| + 1);
    forall x ensures multiset(listed)[x] == if x in kept then 1 else 0 {
      ExpansionListsOnce(parents, kept, level, tops, x);
    }
    SameMultiset(listed, kept);
  }

  lemma OneTopPerWalk(parents: map<Key, Key>, kept: set<Key>, tops: seq<Key>, x: Key)
    requires Acyclic(parents) && Distinct(tops) && x in kept && ClosedUpward(parents, kept)
    requires forall y :: y in tops <==> y in kept && y !in parents
    ensures Hits(tops, Chain(parents, x)) == 1
  {
    var path := Chain(parents, x);
    var last := path[|path| - 1];
    WalkKept(parents, kept, x, last);
    forall c | c in tops && c in path ensures c == last { RootIsLast(parents, x, c); }
    OneHit(tops, path, last);
  }

  // ----- The same, of the rows that are shown ---------------------------------------------------

  function KeysOf(rows: seq<Row>): (keys: seq<Key>)
    ensures |keys| == |rows| && forall i | 0 <= i < |rows| :: keys[i] == rows[i].key
  {
    seq(|rows|, i requires 0 <= i < |rows| => rows[i].key)
  }

  function SumMatches(rows: seq<Row>): nat {
    if rows == [] then 0 else SumMatches(rows[..|rows| - 1]) + rows[|rows| - 1].matches
  }

  lemma {:induction false} SumOfRows(all: map<Key, CatalogRun>, parents: map<Key, Key>, matched: seq<Key>,
                                     rows: seq<Row>)
    requires Acyclic(parents) && forall i | 0 <= i < |rows| :: RowIs(all, parents, matched, rows[i])
    ensures SumMatches(rows) == SumCounts(parents, matched, KeysOf(rows))
  {
    if rows != [] {
      SumOfRows(all, parents, matched, rows[..|rows| - 1]);
      assert KeysOf(rows)[..|rows| - 1] == KeysOf(rows[..|rows| - 1]);
      assert RowIs(all, parents, matched, rows[|rows| - 1]);
    }
  }

  lemma LevelIsDistinct(all: map<Key, CatalogRun>, parents: map<Key, Key>, matched: seq<Key>, root: Option<Key>,
                        newestFirst: bool, rows: seq<Row>)
    requires Acyclic(parents) && LevelIs(all, parents, matched, root, newestFirst, rows)
    ensures Distinct(KeysOf(rows)) && forall x :: x in KeysOf(rows) <==> AtLevel(parents, matched, root, x)
  {
    var keys := KeysOf(rows);
    assert keys == seq(|rows|, i requires 0 <= i < |rows| => rows[i].key);
    forall i, j | 0 <= i < j < |keys| ensures keys[i] != keys[j] {
      assert Before(all, newestFirst, keys[i], keys[j]);
      StringLessTotal(keys[i], keys[j]);
    }
  }

  /** The match counts shown on the top rows add up to the number of matched runs. */
  lemma TopRowsAddUp(all: map<Key, CatalogRun>, parents: map<Key, Key>, matched: seq<Key>, newestFirst: bool,
                     rows: seq<Row>)
    requires Acyclic(parents) && LevelIs(all, parents, matched, None, newestFirst, rows)
    ensures SumMatches(rows) == |matched|
  {
    LevelIsDistinct(all, parents, matched, None, newestFirst, rows);
    SumOfRows(all, parents, matched, rows);
    forall m | m in matched ensures Chain(parents, m)[|Chain(parents, m)| - 1] in KeysOf(rows) {
      var last := Chain(parents, m)[|Chain(parents, m)| - 1];
      var i :| 0 <= i < |matched| && matched[i] == m;
      assert last in Chain(parents, m);
      assert AtLevel(parents, matched, None, last);
    }
    forall t | t in KeysOf(rows) ensures t !in parents {
      assert AtLevel(parents, matched, None, t);
    }
    TopRowsHoldAllMatches(parents, matched, KeysOf(rows));
  }

  /** Over one forest, opening every row down from the top shows each included run once, and no other. */
  lemma OneForestShowsAll(all: map<Key, CatalogRun>, parents: map<Key, Key>, matched: seq<Key>, newestFirst: bool,
                          shown: Option<Key> -> seq<Row>)
    requires Acyclic(parents) && forall root :: LevelIs(all, parents, matched, root, newestFirst, shown(root))
    ensures Levels(parents, IncludedSet(parents, matched), k => KeysOf(shown(Some(k))))
    ensures forall x :: x in KeysOf(shown(None)) <==> x in IncludedSet(parents, matched) && x !in parents
    ensures multiset(ExpandView(parents, IncludedSet(parents, matched), k => KeysOf(shown(Some(k))),
                                KeysOf(shown(None))))
            == multiset(IncludedSet(parents, matched))
  {
    var kept, level := IncludedSet(parents, matched), (k: Key) => KeysOf(shown(Some(k)));
    forall k ensures Distinct(level(k)) && forall x :: x in level(k) <==> x in kept && x in parents && parents[x] == k {
      LevelIsDistinct(all, parents, matched, Some(k), newestFirst, shown(Some(k)));
    }
    LevelIsDistinct(all, parents, matched, None, newestFirst, shown(None));
    IncludedIsClosed(parents, matched);
    ExpansionListsEveryRunOnce(parents, kept, level, KeysOf(shown(None)));
  }

  // ----- One request per level ------------------------------------------------------------------

  /** Every level comes from a request of its own, which chose its own links from the same catalog. */
  ghost predicate Requested(all: map<Key, CatalogRun>, matched: seq<Key>, newestFirst: bool,
                            forest: Option<Key> -> map<Key, Key>, shown: Option<Key> -> seq<Row>)
  {
    forall root {:trigger shown(root)} ::
      IsForest(all, forest(root)) && LevelIs(all, forest(root), matched, root, newestFirst, shown(root))
  }

  /**
   If no provenance cycle has two or more runs, opening every shown row down
   from the top, one request per row, shows each included run once, and no
   other.
   */
  lemma ShownRunsAreTheIncludedOnes(all: map<Key, CatalogRun>, matched: seq<Key>, newestFirst: bool,
                                    forest: Option<Key> -> map<Key, Key>, shown: Option<Key> -> seq<Row>)
    requires OnlySelfCycles(all) && Requested(all, matched, newestFirst, forest, shown)
    ensures Acyclic(forest(None))
    ensures Levels(forest(None), IncludedSet(forest(None), matched), k => KeysOf(shown(Some(k))))
    ensures forall x :: x in KeysOf(shown(None)) <==> x in IncludedSet(forest(None), matched) && x !in forest(None)
    ensures multiset(ExpandView(forest(None), IncludedSet(forest(None), matched), k => KeysOf(shown(Some(k))),
                                KeysOf(shown(None))))
            == multiset(IncludedSet(forest(None), matched))
  {
    var parents := forest(None);
    assert LevelIs(all, parents, matched, None, newestFirst, shown(None));
    forall root ensures LevelIs(all, parents, matched, root, newestFirst, shown(root)) {
      assert LevelIs(all, forest(root), matched, root, newestFirst, shown(root));
      ForestsAgree(all, forest(root), parents);
    }
    OneForestShowsAll(all, parents, matched, newestFirst, shown);
  }

  /** Whatever forests the requests choose, the level of some request shows `x`. */
  ghost predicate AlwaysShown(all: map<Key, CatalogRun>, matched: seq<Key>, x: Key) {
    forall top, below | IsForest(all, top) && IsForest(all, below) ::
      AtLevel(top, matched, None, x) || exists root :: AtLevel(below, matched, Some(root), x)
  }

  /**
   Every matched run can be reached by opening rows, whatever the requests choose,
   exactly if no cycle has two or more runs.
   */
  lemma MatchesAreShownExactlyWhen(all: map<Key, CatalogRun>)
    ensures (forall matched: seq<Key>, x | x in matched :: AlwaysShown(all, matched, x)) <==> OnlySelfCycles(all)
  {
    if OnlySelfCycles(all) {
      forall matched: seq<Key>, x | x in matched ensures AlwaysShown(all, matched, x) {
        forall top, below | IsForest(all, top) && IsForest(all, below)
          ensures AtLevel(top, matched, None, x) || exists root :: AtLevel(below, matched, Some(root), x)
        {
          ForestsAgree(all, top, below);
          var i :| 0 <= i < |matched| && matched[i] == x;
          assert Chain(top, x)[0] == x;
          assert x in top ==> AtLevel(below, matched, Some(below[x]), x);
        }
      }
    } else {
      var k :| OnCycle(all, k) && Claim(all, k) != Some(k);
      var x, keeps, drops := TwoForests(all, k);
      assert !AtLevel(keeps, [x], None, x) && forall root :: !AtLevel(drops, [x], Some(root), x);
      assert x in [x] && !AlwaysShown(all, [x], x);
    }
  }

  const A_KEY := "s" + SEPARATOR + "a"
  const B_KEY := "s" + SEPARATOR + "b"

  /** Two runs that name each other as their source. */
  function TwoInACircle(): map<Key, CatalogRun> {
    map[A_KEY := CatalogRun("s", "a", "b", "", ""), B_KEY := CatalogRun("s", "b", "a", "", "")]
  }

  lemma LinkOfTwo(child: Key, parent: Key)
    requires (child == A_KEY && parent == B_KEY) || (child == B_KEY && parent == A_KEY)
    ensures IsForest(TwoInACircle(), map[child := parent])
  {
    assert A_KEY[2] == 'a' && B_KEY[2] == 'b';
    EmptyForest();
    ChainStep(map[], parent);
    AddLink(map[], child, parent);
    ChainStep(map[child := parent], child);
    ChainStep(map[child := parent], parent);
  }

  /**
   The concrete case: both runs matched. The request for the top links `a`
   under `b` and shows `b` alone; the one for the rows below `b` links `b`
   under `a`. Opening everything never shows `a`.
   */
  lemma ARunIsLostBetweenRequests()
    ensures exists top, below | IsForest(TwoInACircle(), top) && IsForest(TwoInACircle(), below) ::
              && AtLevel(top, [A_KEY, B_KEY], None, B_KEY) && !AtLevel(top, [A_KEY, B_KEY], None, A_KEY)
              && forall x :: !AtLevel(below, [A_KEY, B_KEY], Some(B_KEY), x)
  {
    assert A_KEY[2] == 'a' && B_KEY[2] == 'b';
    var top, below, matched := map[A_KEY := B_KEY], map[B_KEY := A_KEY], [A_KEY, B_KEY];
    LinkOfTwo(A_KEY, B_KEY);
    LinkOfTwo(B_KEY, A_KEY);
    assert matched[1] == B_KEY && Chain(top, B_KEY)[0] == B_KEY;
    assert AtLevel(top, matched, None, B_KEY);
  }
}
