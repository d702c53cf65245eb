/**
 Which run descends from which. Recorded provenance may contain cycles; the
 parent links kept from it never do, and no more is dropped than that needs.
 */
module Provenance {
  import opened Prelude

  type Key = string

  datatype CatalogRun = CatalogRun(source: string, id: string, forkSource: string, created: string,
                                   lastObserved: string)

  const SEPARATOR := ['\0']

  /** The run this one says it was forked from, if the catalog has it. */
  function Claim(all: map<Key, CatalogRun>, key: Key): Option<Key> {
    if key !in all || all[key].forkSource == "" then None
    else
      var candidate := all[key].source + SEPARATOR + all[key].forkSource;
      if candidate in all then Some(candidate) else None
  }

  // ----- Walking up parent links ---------------------------------------------------------

  /** `path` is the walk from `k` up the links, to a key that has none. */
  ghost predicate IsChain(parents: map<Key, Key>, k: Key, path: seq<Key>) {
    && path != [] && path[0] == k
    && path[|path| - 1] !in parents
    && (forall i {:trigger path[i]} | 0 <= i < |path| - 1 :: path[i] in parents)
    && forall i, j {:trigger path[i], path[j]} | 0 <= i < j < |path| && j == i + 1 :: path[j] == parents[path[i]]
  }

  /** Every walk up the links ends. */
  ghost predicate Acyclic(parents: map<Key, Key>) {
    forall k {:trigger Ends(parents, k)} :: Ends(parents, k)
  }

  ghost predicate Ends(parents: map<Key, Key>, k: Key) {
    exists path :: IsChain(parents, k, path)
  }

  ghost function Chain(parents: map<Key, Key>, k: Key): (path: seq<Key>)
    requires Acyclic(parents)
    ensures IsChain(parents, k, path)
  {
    assert Ends(parents, k);
    var path :| IsChain(parents, k, path);
    path
  }

  lemma {:induction false} ChainUnique(parents: map<Key, Key>, k: Key, a: seq<Key>, b: seq<Key>)
    requires IsChain(parents, k, a) && IsChain(parents, k, b)
    ensures a == b
    decreases |a|
  {
    if k in parents {
      assert a[0] == k && b[0] == k;
      assert |a| > 1 && |b| > 1;
      assert IsChain(parents, parents[k], a[1..]) by {
        forall i {:trigger a[1..][i]} | 0 <= i < |a[1..]| - 1 ensures a[1..][i] in parents
          && a[1..][i + 1] == parents[a[1..][i]] {
          assert a[i + 1] in parents;
        }
      }
      assert IsChain(parents, parents[k], b[1..]) by {
        forall i {:trigger b[1..][i]} | 0 <= i < |b[1..]| - 1 ensures b[1..][i] in parents
          && b[1..][i + 1] == parents[b[1..][i]] {
          assert b[i + 1] in parents;
        }
      }
      ChainUnique(parents, parents[k], a[1..], b[1..]);
      assert a == [k] + a[1..] && b == [k] + b[1..];
    } else {
      assert a[0] !in parents && b[0] !in parents;
      assert a == [k] && b == [k];
    }
  }

  lemma ChainStep(parents: map<Key, Key>, k: Key)
    requires Acyclic(parents)
    ensures Chain(parents, k) == if k in parents then [k] + Chain(parents, parents[k]) else [k]
  {
    if k in parents {
      var rest := Chain(parents, parents[k]);
      var path := [k] + rest;
      forall i {:trigger path[i]} | 0 <= i < |path| - 1 ensures path[i] in parents && path[i + 1] == parents[path[i]] {
        if i > 0 { assert path[i] == rest[i - 1] && path[i + 1] == rest[i]; }
      }
      assert path[|path| - 1] == rest[|rest| - 1];
      ChainUnique(parents, k, Chain(parents, k), path);
    } else {
      ChainUnique(parents, k, Chain(parents, k), [k]);
    }
  }

  /** The rest of a walk is the walk of the key reached. */
  lemma {:induction false} ChainSuffix(parents: map<Key, Key>, k: Key, i: nat)
    requires Acyclic(parents) && i < |Chain(parents, k)|
    ensures Chain(parents, k)[i..] == Chain(parents, Chain(parents, k)[i])
    decreases i
  {
    hide Acyclic, IsChain;
    ChainStep(parents, k);
    if i > 0 {
      ChainSuffix(parents, parents[k], i - 1);
      var rest := Chain(parents, parents[k]);
      assert Chain(parents, k)[i..] == rest[i - 1..];
    }
  }

  lemma ChainDistinct(parents: map<Key, Key>, k: Key)
    requires Acyclic(parents)
    ensures Distinct(Chain(parents, k))
  {
    var path := Chain(parents, k);
    forall i, j | 0 <= i < j < |path| ensures path[i] != path[j] {
      ChainSuffix(parents, k, i);
      ChainSuffix(parents, k, j);
      assert |path[i..]| != |path[j..]|;
    }
  }

  /** Two steps of one walk: the later one is above the earlier one. */
  lemma AboveIsTransitive(parents: map<Key, Key>, a: Key, b: Key, d: Key)
    requires Acyclic(parents) && b in Chain(parents, a) && d in Chain(parents, b)
    ensures d in Chain(parents, a)
  {
    var i :| 0 <= i < |Chain(parents, a)| && Chain(parents, a)[i] == b;
    ChainSuffix(parents, a, i);
    var j :| 0 <= j < |Chain(parents, b)| && Chain(parents, b)[j] == d;
    assert Chain(parents, a)[i + j] == d;
  }

  /** A key without a link ends every walk that reaches it. */
  lemma RootIsLast(parents: map<Key, Key>, k: Key, root: Key)
    requires Acyclic(parents) && root in Chain(parents, k) && root !in parents
    ensures root == Chain(parents, k)[|Chain(parents, k)| - 1]
  {
    var path := Chain(parents, k);
    var i :| 0 <= i < |path| && path[i] == root;
    if i < |path| - 1 { assert path[i] in parents; }
  }

  // ----- Adding one link ------------------------------------------------------------------

  lemma ChainWithLink(parents: map<Key, Key>, k: Key, target: Key, x: Key) returns (path: seq<Key>)
    requires Acyclic(parents) && k !in parents && k !in Chain(parents, target)
    ensures IsChain(parents[k := target], x, path)
    ensures Chain(parents, x) <= path
  {
    var more, known, tail := parents[k := target], Chain(parents, x), Chain(parents, target);
    path := if k in known then known + tail else known;
    if k in known { RootIsLast(parents, x, k); }
    forall i {:trigger path[i]} | 0 <= i < |path| - 1 ensures path[i] in more && path[i + 1] == more[path[i]] {
      if i < |known| - 1 {
        assert known[i] in parents && path[i] == known[i] && path[i + 1] == known[i + 1];
      } else if i >= |known| {
        assert path[i] == tail[i - |known|] && path[i + 1] == tail[i + 1 - |known|];
        assert tail[i - |known|] in parents;
      }
    }
    assert path[|path| - 1] !in more by {
      if k in known { assert path[|path| - 1] == tail[|tail| - 1]; }
    }
  }

  lemma AddLink(parents: map<Key, Key>, k: Key, target: Key)
    requires Acyclic(parents) && k !in parents && k !in Chain(parents, target)
    ensures Acyclic(parents[k := target])
    ensures forall x :: Chain(parents, x) <= Chain(parents[k := target], x)
  {
    var more := parents[k := target];
    forall x ensures Ends(more, x) {
      var path := ChainWithLink(parents, k, target, x);
    }
    forall x ensures Chain(parents, x) <= Chain(more, x) {
      var path := ChainWithLink(parents, k, target, x);
      ChainUnique(more, x, path, Chain(more, x));
    }
  }

  // ----- Choosing the links ----------------------------------------------------------------

  /** `parents` keeps recorded links only, without a cycle, and drops a link only if keeping it would close one. */
  ghost predicate IsForest(all: map<Key, CatalogRun>, parents: map<Key, Key>) {
    && Acyclic(parents)
    && (forall k | k in parents :: k in all && Claim(all, k) == Some(parents[k]))
    && forall k | k in all && Claim(all, k).Some? && k !in parents :: k in Chain(parents, Claim(all, k).value)
  }

  /** Run `k` names the run `p` of its own source as the one it was forked from, and the catalog has it. */
  ghost predicate Records(all: map<Key, CatalogRun>, k: Key, p: Key) {
    && k in all && all[k].forkSource != "" && p in all
    && p == all[k].source + ['\0'] + all[k].forkSource
  }

  lemma RecordsIs(all: map<Key, CatalogRun>, k: Key, p: Key)
    ensures Claim(all, k) == Some(p) <==> Records(all, k, p)
  {
  }

  /** The links of a forest are recorded ones, and a recorded one is left out only if the walk up from it comes back. */
  lemma ForestIs(all: map<Key, CatalogRun>, parents: map<Key, Key>)
    ensures IsForest(all, parents) <==>
              && Acyclic(parents) && (forall k | k in parents :: Records(all, k, parents[k]))
              && forall k, p | Records(all, k, p) && k !in parents :: k in Chain(parents, p)
  {
    hide Acyclic;
    forall k, p ensures Claim(all, k) == Some(p) <==> Records(all, k, p) { RecordsIs(all, k, p); }
  }

  /** Whether linking `key` under `candidate` would close a cycle: walk up and look for a key already seen. */
  method ClosesCycle(parents: map<Key, Key>, key: Key, candidate: Key) returns (closes: bool)
    requires Acyclic(parents)
    ensures closes <==> key in Chain(parents, candidate)
  {
    var seen, at := {key}, Some(candidate);
    ghost var i := 0;
    ghost var path := Chain(parents, candidate);
    while at.Some?
      invariant 0 <= i <= |path|
      invariant at == if i < |path| then Some(path[i]) else None
      invariant seen == {key} + set x | x in path[..i]
      invariant key !in path[..i]
      decreases |path| - i
    {
      ChainDistinct(parents, candidate);
      assert path == path[..i] + path[i..];
      if at.value in seen {
        assert path[i] == key;
        return true;
      }
      seen := seen + {at.value};
      if i == |path| - 1 {
        assert at.value !in parents;
      } else {
        assert path[i] in parents;
      }
      at := if at.value in parents then Some(parents[at.value]) else None;
      i := i + 1;
    }
    assert path[..i] == path;
    return false;
  }

  /** Link every run whose recorded source exists, in whatever order the catalog is visited. */
  method LinkParents(all: map<Key, CatalogRun>) returns (parents: map<Key, Key>)
    ensures IsForest(all, parents)
  {
    parents := map[];
    EmptyForest();
    var rest := all.Keys;
    while rest != {}
      invariant rest <= all.Keys
      invariant Acyclic(parents)
      invariant forall k | k in parents :: k in all && k !in rest && Claim(all, k) == Some(parents[k])
      invariant forall k | k in all && k !in rest && Claim(all, k).Some? && k !in parents ::
                  k in Chain(parents, Claim(all, k).value)
    {
      var key :| key in rest;
      rest := rest - {key};
      var candidate := Claim(all, key);
      if candidate.Some? {
        ChainStep(parents, candidate.value);
        assert candidate.value == key ==> key in Chain(parents, candidate.value);
        if candidate.value != key {
          var closes := ClosesCycle(parents, key, candidate.value);
          if !closes {
            AddLink(parents, key, candidate.value);
            parents := parents[key := candidate.value];
          }
        }
      }
    }
  }

  lemma EmptyForest()
    ensures Acyclic(map[])
  {
    forall k ensures Ends(map[], k) {
      assert IsChain(map[], k, [k]);
    }
  }

  // ----- Cycles of recorded provenance -------------------------------------------------------

  /** Follow recorded provenance `n` times. */
  function Follow(all: map<Key, CatalogRun>, k: Key, n: nat): Option<Key> {
    if n == 0 then Some(k)
    else
      match Follow(all, k, n - 1)
      case None => None
      case Some(x) => Claim(all, x)
  }

  lemma {:induction false} FollowAdds(all: map<Key, CatalogRun>, k: Key, a: nat, b: nat)
    requires Follow(all, k, a).Some?
    ensures Follow(all, k, a + b) == Follow(all, Follow(all, k, a).value, b)
  {
    if b > 0 { FollowAdds(all, k, a, b - 1); }
  }

  lemma {:induction false} FollowAround(all: map<Key, CatalogRun>, k: Key, n: nat, t: nat)
    requires Follow(all, k, n) == Some(k)
    ensures Follow(all, k, n * t) == Some(k)
  {
    if t > 0 {
      FollowAround(all, k, n, t - 1);
      FollowAdds(all, k, n * (t - 1), n);
      assert n * (t - 1) + n == n * t;
    }
  }

  ghost predicate OnCycle(all: map<Key, CatalogRun>, k: Key) {
    exists n: nat :: n > 0 && Follow(all, k, n) == Some(k)
  }

  /** Everything recorded above a run whose link was dropped lies on the walk that would have led back to it. */
  lemma {:induction false} AboveDropped(all: map<Key, CatalogRun>, parents: map<Key, Key>, x: Key, m: nat)
    requires IsForest(all, parents) && x in all && Claim(all, x).Some? && x !in parents
    requires m > 0 && Follow(all, x, m).Some?
    ensures Follow(all, x, m).value in Chain(parents, Claim(all, x).value)
  {
    var path := Chain(parents, Claim(all, x).value);
    if m == 1 {
      assert Follow(all, x, 0) == Some(x);
      assert path[0] == Claim(all, x).value;
    } else {
      AboveDropped(all, parents, x, m - 1);
      var y := Follow(all, x, m - 1).value;
      var i :| 0 <= i < |path| && path[i] == y;
      if i < |path| - 1 {
        assert path[i] in parents && path[i + 1] == Follow(all, x, m).value;
      } else {
        RootIsLast(parents, Claim(all, x).value, x);
        assert path[0] == Claim(all, x).value;
      }
    }
  }

  /** A link is dropped only from a run that recorded provenance leads back to. */
  lemma DroppedOnlyOnCycles(all: map<Key, CatalogRun>, parents: map<Key, Key>, x: Key)
    requires IsForest(all, parents) && x in all && Claim(all, x).Some? && x !in parents
    ensures OnCycle(all, x)
  {
    var path := Chain(parents, Claim(all, x).value);
    var i :| 0 <= i < |path| && path[i] == x;
    FollowAlong(all, parents, Claim(all, x).value, i);
    assert Follow(all, x, 0) == Some(x);
    assert Follow(all, x, 1) == Claim(all, x);
    FollowAdds(all, x, 1, i);
    assert Follow(all, x, 1 + i) == Some(x);
  }

  lemma {:induction false} FollowAlong(all: map<Key, CatalogRun>, parents: map<Key, Key>, k: Key, i: nat)
    requires IsForest(all, parents) && i < |Chain(parents, k)|
    ensures Follow(all, k, i) == Some(Chain(parents, k)[i])
  {
    if i > 0 {
      FollowAlong(all, parents, k, i - 1);
      assert Chain(parents, k)[i - 1] in parents;
    }
  }

  ghost predicate OnOrbit(all: map<Key, CatalogRun>, k: Key, x: Key) {
    exists m: nat :: Follow(all, k, m) == Some(x)
  }

  lemma OrbitReturns(all: map<Key, CatalogRun>, k: Key, n: nat, a: nat, b: nat) returns (d: nat)
    requires n > 0 && Follow(all, k, n) == Some(k) && Follow(all, k, a).Some? && Follow(all, k, b).Some?
    ensures d > 0 && Follow(all, Follow(all, k, a).value, d) == Follow(all, k, b)
  {
    var around := n * (a + 1);
    FollowAround(all, k, n, a + 1);
    FollowAdds(all, k, around, b);
    assert around >= a + 1 by { MulAtLeast(n, a + 1); }
    d := around + b - a;
    FollowAdds(all, k, a, d);
  }

  lemma MulAtLeast(n: nat, m: nat)
    requires n > 0
    ensures n * m >= m
  {
  }

  /** From every cycle of recorded provenance exactly one link is dropped; self-links are cycles of one. */
  lemma OneLinkDroppedPerCycle(all: map<Key, CatalogRun>, parents: map<Key, Key>, k: Key)
    requires IsForest(all, parents) && OnCycle(all, k)
    ensures exists x :: OnOrbit(all, k, x) && x !in parents
    ensures forall x, y | OnOrbit(all, k, x) && OnOrbit(all, k, y) && x !in parents && y !in parents :: x == y
  {
    var path := Chain(parents, k);
    FollowAlong(all, parents, k, |path| - 1);
    assert OnOrbit(all, k, path[|path| - 1]);
    var n: nat :| n > 0 && Follow(all, k, n) == Some(k);
    forall x, y | OnOrbit(all, k, x) && OnOrbit(all, k, y) && x !in parents && y !in parents ensures x == y {
      var a: nat :| Follow(all, k, a) == Some(x);
      var b: nat :| Follow(all, k, b) == Some(y);
      var d := OrbitReturns(all, k, n, a, b);
      FirstClaim(all, x, d);
      AboveDropped(all, parents, x, d);
      RootIsLast(parents, Claim(all, x).value, x);
      RootIsLast(parents, Claim(all, x).value, y);
    }
  }

  lemma {:induction false} FirstClaim(all: map<Key, CatalogRun>, x: Key, d: nat)
    requires d > 0 && Follow(all, x, d).Some?
    ensures x in all && Claim(all, x).Some?
  {
    if d > 1 { FirstClaim(all, x, d - 1); } else { assert Follow(all, x, 0) == Some(x); }
  }

  // ----- When the links are determined --------------------------------------------------------

  /** No provenance cycle has two or more runs: a run on a cycle claims itself. */
  ghost predicate OnlySelfCycles(all: map<Key, CatalogRun>) {
    forall k {:trigger OnCycle(all, k)} | OnCycle(all, k) :: Claim(all, k) == Some(k)
  }

  /** Links chosen so far can be completed to a forest that keeps them. */
  lemma {:induction false} Completed(all: map<Key, CatalogRun>, parents: map<Key, Key>,
                                     rest: set<Key>) returns (full: map<Key, Key>)
    requires Acyclic(parents)
    requires forall k | k in parents :: k in all && Claim(all, k) == Some(parents[k])
    requires forall k | k in all && k !in rest && Claim(all, k).Some? && k !in parents ::
               k in Chain(parents, Claim(all, k).value)
    ensures IsForest(all, full) && parents.Keys <= full.Keys
    decreases |rest|
  {
    full := parents;
    if rest != {} {
      var key :| key in rest;
      var more, claim := parents, Claim(all, key);
      if claim.Some? && key !in parents && key !in Chain(parents, claim.value) {
        AddLink(parents, key, claim.value);
        more := parents[key := claim.value];
      }
      full := Completed(all, more, rest - {key});
    }
  }

  /** Any one link between different runs is kept by some forest. */
  lemma ForestWith(all: map<Key, CatalogRun>, k: Key) returns (parents: map<Key, Key>)
    requires k in all && Claim(all, k).Some? && Claim(all, k).value != k
    ensures IsForest(all, parents) && k in parents
  {
    EmptyForest();
    ChainStep(map[], Claim(all, k).value);
    AddLink(map[], k, Claim(all, k).value);
    parents := Completed(all, map[k := Claim(all, k).value], all.Keys);
  }

  /** A run that claims itself leads nowhere else. */
  lemma {:induction false} SelfOrbit(all: map<Key, CatalogRun>, x: Key, n: nat)
    requires Claim(all, x) == Some(x)
    ensures Follow(all, x, n) == Some(x)
  {
    if n > 0 { SelfOrbit(all, x, n - 1); }
  }

  /** On a cycle of two or more runs some link is kept by one forest and dropped by another. */
  lemma TwoForests(all: map<Key, CatalogRun>, k: Key) returns (x: Key, keeps: map<Key, Key>, drops: map<Key, Key>)
    requires OnCycle(all, k) && Claim(all, k) != Some(k)
    ensures IsForest(all, keeps) && IsForest(all, drops) && x in keeps && x !in drops
  {
    var n: nat :| n > 0 && Follow(all, k, n) == Some(k);
    FirstClaim(all, k, n);
    drops := ForestWith(all, k);
    OneLinkDroppedPerCycle(all, drops, k);
    x :| OnOrbit(all, k, x) && x !in drops;
    var m: nat :| Follow(all, k, m) == Some(x);
    var back := OrbitReturns(all, k, n, m, n);
    FirstClaim(all, x, back);
    if Claim(all, x) == Some(x) { SelfOrbit(all, x, back); }
    keeps := ForestWith(all, x);
  }

  /** Without such a cycle the links are the recorded ones between different runs, in every order of visiting. */
  lemma LinkedExactlyWhen(all: map<Key, CatalogRun>, parents: map<Key, Key>, x: Key)
    requires OnlySelfCycles(all) && IsForest(all, parents)
    ensures x in parents <==> x in all && Claim(all, x).Some? && Claim(all, x) != Some(x)
  {
    if x in parents {
      ChainDistinct(parents, x);
      ChainStep(parents, x);
      ChainStep(parents, parents[x]);
    } else if x in all && Claim(all, x).Some? {
      DroppedOnlyOnCycles(all, parents, x);
    }
  }

  lemma ForestsAgree(all: map<Key, CatalogRun>, a: map<Key, Key>, b: map<Key, Key>)
    requires OnlySelfCycles(all) && IsForest(all, a) && IsForest(all, b)
    ensures a == b
  {
    forall x ensures x in a <==> x in b {
      LinkedExactlyWhen(all, a, x);
      LinkedExactlyWhen(all, b, x);
    }
  }

  /**
   The catalog fixes its links, whatever order it is visited in, exactly if no
   provenance cycle has two or more runs.
   */
  lemma ForestIsUniqueExactlyWhen(all: map<Key, CatalogRun>)
    ensures (forall a, b | IsForest(all, a) && IsForest(all, b) :: a == b) <==> OnlySelfCycles(all)
  {
    if OnlySelfCycles(all) {
      forall a, b | IsForest(all, a) && IsForest(all, b) ensures a == b { ForestsAgree(all, a, b); }
    } else {
      var k :| OnCycle(all, k) && Claim(all, k) != Some(k);
      var x, keeps, drops := TwoForests(all, k);
      assert keeps != drops;
    }
  }
}
