/**
 `Translator.Finder`: a recursive depth-first search for a chain of rules from
 one key to another. It first tries the exact (fromKey, toKey) bucket, then
 walks the neighbours of `fromKey`. One set of travelled key pairs is shared by
 the whole search and never undone, so it is threaded into and out of every
 recursive call. No hop budget is consulted: the travelled set alone bounds
 the search.
 */
module Search {
  import opened Wrappers
  import opened Rules
  import opened RuleGraph

  /** What a call of the search hands back: success, the path, and the travelled set as it stands on return. */
  datatype Outcome<K(==), !V> = Outcome(found: bool, path: seq<Rule<K, V>>, visited: set<(K, K)>)

  /** The key pair a step of a path travels. */
  function Travelled<K, V>(t: Rule<K, V>): (K, K)
  {
    (t.keyA, t.keyB)
  }

  /** The position of the first rule of a bucket that the direct-hit test accepts. */
  function FirstHit<K(==), V(==)>(bucket: seq<Rule<K, V>>, v: V, toKey: K): (r: Option<nat>)
    ensures r.Some? ==>
      && r.value < |bucket|
      && HitMatches(bucket[r.value], v, toKey)
      && forall k | 0 <= k < r.value :: !HitMatches(bucket[k], v, toKey)
    ensures r.None? ==> forall k | 0 <= k < |bucket| :: !HitMatches(bucket[k], v, toKey)
  {
    if bucket == [] then None
    else if HitMatches(bucket[0], v, toKey) then Some(0)
    else
      match FirstHit(bucket[1..], v, toKey)
      case None => None
      case Some(k) => Some(k + 1)
  }

  /** `Finder(translations, fromValue, fromKey, toKey, ..., pathsTraveled)`. */
  function Find<K(==), V(==)>(g: Graph<K, V>, v: V, fromKey: K, toKey: K, visited: set<(K, K)>)
    : (res: Outcome<K, V>)
    ensures visited <= res.visited <= visited + Pairs(g)
    ensures res.found <==> res.path != []
    decreases Pairs(g) - visited, 1, 0
  {
    if fromKey !in g.edges then Outcome(false, [], visited)
    else
      var direct :=
        if toKey in g.edges[fromKey] then FirstHit(g.edges[fromKey][toKey], v, toKey) else None;
      if direct.Some? && toKey in g.edges[fromKey] then
        Outcome(true, [g.edges[fromKey][toKey][direct.value]], visited)
      else
        NeighboursPairs(g, fromKey);
        Explore(g, Neighbours(g, fromKey), v, fromKey, toKey, visited)
  }

  /** The `foreach` over the neighbours of `fromKey`, each tried once its pair is marked travelled. */
  function Explore<K(==), V(==)>(
    g: Graph<K, V>, cands: seq<Rule<K, V>>, v: V, fromKey: K, toKey: K, visited: set<(K, K)>)
    : (res: Outcome<K, V>)
    requires forall i | 0 <= i < |cands| :: (fromKey, cands[i].keyB) in Pairs(g)
    ensures visited <= res.visited <= visited + Pairs(g)
    ensures res.found <==> res.path != []
    decreases Pairs(g) - visited, 0, |cands|
  {
    if cands == [] then Outcome(false, [], visited)
    else
      var t := cands[0];
      var pathKey := (fromKey, t.keyB);
      if !Eligible(t, v) || pathKey in visited then
        Explore(g, cands[1..], v, fromKey, toKey, visited)
      else
        var sub := Find(g, NextValue(t, v), t.keyB, toKey, visited + {pathKey});
        if sub.found then Outcome(true, [t] + sub.path, sub.visited)
        else Explore(g, cands[1..], v, fromKey, toKey, sub.visited)
  }

  /** A non-empty chain of rules from `fromKey` to `toKey`, each step starting where the previous ended. */
  ghost predicate Chain<K, V>(path: seq<Rule<K, V>>, fromKey: K, toKey: K)
  {
    && |path| > 0
    && path[0].keyA == fromKey
    && path[|path| - 1].keyB == toKey
    && forall i | 0 <= i < |path| - 1 :: path[i].keyB == path[i + 1].keyA
  }

  /** Every step is a rule stored in the bucket of its own key pair. */
  ghost predicate InGraph<K, V>(g: Graph<K, V>, path: seq<Rule<K, V>>)
  {
    forall i | 0 <= i < |path| :: path[i] in Bucket(g, path[i].keyA, path[i].keyB)
  }

  /**
   Every Direct step's source literal equals the running value, which starts
   at `v`, becomes the literal target value after a Direct step and is kept by
   any other step.
   */
  ghost predicate Gated<K, V>(path: seq<Rule<K, V>>, v: V)
    decreases |path|
  {
    path == [] || (Eligible(path[0], v) && Gated(path[1..], NextValue(path[0], v)))
  }

  /**
   The pairs travelled by all steps but the last were newly marked during the
   call (in `after`, not in `before`) and are pairwise distinct.
   */
  ghost predicate FreshTravel<K, V>(path: seq<Rule<K, V>>, before: set<(K, K)>, after: set<(K, K)>)
  {
    && (forall i | 0 <= i < |path| - 1 :: Travelled(path[i]) in after && Travelled(path[i]) !in before)
    && (forall i, j | 0 <= i < j < |path| - 1 :: Travelled(path[i]) != Travelled(path[j]))
  }

  /** All the promises a successful search makes about its path. */
  ghost predicate SoundPath<K, V>(
    g: Graph<K, V>, path: seq<Rule<K, V>>, v: V, fromKey: K, toKey: K, before: set<(K, K)>, after: set<(K, K)>)
  {
    Chain(path, fromKey, toKey) && InGraph(g, path) && Gated(path, v) && FreshTravel(path, before, after)
  }

  /** In a well-formed graph a found path is a gated chain of graph rules whose pairs are never travelled twice. */
  lemma {:induction false} FindSound<K, V>(g: Graph<K, V>, v: V, fromKey: K, toKey: K, visited: set<(K, K)>)
    requires WellFormed(g)
    ensures var res := Find(g, v, fromKey, toKey, visited);
      res.found ==> SoundPath(g, res.path, v, fromKey, toKey, visited, res.visited)
    decreases Pairs(g) - visited, 1, 0
  {
    if fromKey in g.edges {
      var direct :=
        if toKey in g.edges[fromKey] then FirstHit(g.edges[fromKey][toKey], v, toKey) else None;
      if direct.Some? && toKey in g.edges[fromKey] {
        var t := g.edges[fromKey][toKey][direct.value];
        assert Homed(g.edges[fromKey][toKey], fromKey, toKey);
        assert t in Bucket(g, t.keyA, t.keyB);
        assert [t][1..] == [];
      } else {
        NeighboursPairs(g, fromKey);
        NeighboursHomed(g, fromKey);
        ExploreSound(g, Neighbours(g, fromKey), v, fromKey, toKey, visited);
      }
    }
  }

  lemma {:induction false} ExploreSound<K, V>(
    g: Graph<K, V>, cands: seq<Rule<K, V>>, v: V, fromKey: K, toKey: K, visited: set<(K, K)>)
    requires WellFormed(g)
    requires forall i | 0 <= i < |cands| :: (fromKey, cands[i].keyB) in Pairs(g)
    requires forall i | 0 <= i < |cands| ::
      cands[i].keyA == fromKey && cands[i] in Bucket(g, fromKey, cands[i].keyB)
    ensures var res := Explore(g, cands, v, fromKey, toKey, visited);
      res.found ==> SoundPath(g, res.path, v, fromKey, toKey, visited, res.visited)
    decreases Pairs(g) - visited, 0, |cands|
  {
    if cands != [] {
      var t := cands[0];
      var pathKey := (fromKey, t.keyB);
      if !Eligible(t, v) || pathKey in visited {
        ExploreSound(g, cands[1..], v, fromKey, toKey, visited);
      } else {
        var before := visited + {pathKey};
        var sub := Find(g, NextValue(t, v), t.keyB, toKey, before);
        FindSound(g, NextValue(t, v), t.keyB, toKey, before);
        if sub.found {
          PrependSound(g, t, sub.path, v, fromKey, toKey, visited, sub.visited);
        } else {
          ExploreSound(g, cands[1..], v, fromKey, toKey, sub.visited);
        }
      }
    }
  }

  /** Prepending an eligible graph rule, whose pair was fresh, to a sound path from its target keeps it sound. */
  lemma PrependSound<K, V>(
    g: Graph<K, V>, t: Rule<K, V>, path: seq<Rule<K, V>>, v: V, fromKey: K, toKey: K,
    visited: set<(K, K)>, after: set<(K, K)>)
    requires t.keyA == fromKey && t in Bucket(g, fromKey, t.keyB) && Eligible(t, v)
    requires Travelled(t) !in visited && Travelled(t) in after
    requires SoundPath(g, path, NextValue(t, v), t.keyB, toKey, visited + {Travelled(t)}, after)
    ensures SoundPath(g, [t] + path, v, fromKey, toKey, visited, after)
  {
    var full := [t] + path;
    assert full[1..] == path;
    forall i | 0 <= i < |full| - 1
      ensures Travelled(full[i]) in after && Travelled(full[i]) !in visited
    {
      if i > 0 {
        assert full[i] == path[i - 1];
      }
    }
    forall i, j | 0 <= i < j < |full| - 1
      ensures Travelled(full[i]) != Travelled(full[j])
    {
      assert full[j] == path[j - 1];
      if i > 0 {
        assert full[i] == path[i - 1];
      }
    }
    forall i | 0 <= i < |full|
      ensures full[i] in Bucket(g, full[i].keyA, full[i].keyB)
    {
      if i > 0 {
        assert full[i] == path[i - 1];
      }
    }
    forall i | 0 <= i < |full| - 1
      ensures full[i].keyB == full[i + 1].keyA
    {
      if i > 0 {
        assert full[i] == path[i - 1];
      }
      assert full[i + 1] == path[i];
    }
  }

  /** Distinct elements of a set `s` number at most `|s|`. */
  lemma {:induction false} DistinctBound<T>(xs: seq<T>, s: set<T>)
    requires forall i | 0 <= i < |xs| :: xs[i] in s
    requires forall i, j | 0 <= i < j < |xs| :: xs[i] != xs[j]
    ensures |xs| <= |s|
    decreases |xs|
  {
    if xs != [] {
      forall i | 0 <= i < |xs[1..]|
        ensures xs[1..][i] in s - {xs[0]}
      {
        assert xs[1..][i] == xs[i + 1];
      }
      DistinctBound(xs[1..], s - {xs[0]});
    }
  }

  /** A subset has no more elements than its superset. */
  lemma {:induction false} SubsetSize<T>(a: set<T>, b: set<T>)
    requires a <= b
    ensures |a| <= |b|
    decreases |a|
  {
    if a != {} {
      var x :| x in a;
      SubsetSize(a - {x}, b - {x});
    }
  }

  /**
   How deeply `Finder` frames nest below and including this call, failed
   branches included: one frame for the call, plus the deepest nesting of any
   neighbour it goes on to try. Each nested frame marks one more pair
   travelled, so the nesting never exceeds the untravelled pairs plus one.
   */
  ghost function FindNesting<K, V>(g: Graph<K, V>, v: V, fromKey: K, toKey: K, visited: set<(K, K)>)
    : (d: nat)
    ensures 1 <= d <= |Pairs(g) - visited| + 1
    decreases Pairs(g) - visited, 1, 0
  {
    if fromKey !in g.edges then 1
    else
      var direct :=
        if toKey in g.edges[fromKey] then FirstHit(g.edges[fromKey][toKey], v, toKey) else None;
      if direct.Some? && toKey in g.edges[fromKey] then 1
      else
        NeighboursPairs(g, fromKey);
        1 + ExploreNesting(g, Neighbours(g, fromKey), v, fromKey, toKey, visited)
  }

  /** The deepest nesting of `Finder` frames that the neighbour loop opens, 0 when it tries none. */
  ghost function ExploreNesting<K, V>(
    g: Graph<K, V>, cands: seq<Rule<K, V>>, v: V, fromKey: K, toKey: K, visited: set<(K, K)>)
    : (d: nat)
    requires forall i | 0 <= i < |cands| :: (fromKey, cands[i].keyB) in Pairs(g)
    ensures d <= |Pairs(g) - visited|
    decreases Pairs(g) - visited, 0, |cands|
  {
    if cands == [] then 0
    else
      var t := cands[0];
      var pathKey := (fromKey, t.keyB);
      if !Eligible(t, v) || pathKey in visited then
        ExploreNesting(g, cands[1..], v, fromKey, toKey, visited)
      else
        var marked := visited + {pathKey};
        var sub := Find(g, NextValue(t, v), t.keyB, toKey, marked);
        var here := FindNesting(g, NextValue(t, v), t.keyB, toKey, marked);
        var rest := if sub.found then 0 else ExploreNesting(g, cands[1..], v, fromKey, toKey, sub.visited);
        assert Pairs(g) - marked == (Pairs(g) - visited) - {pathKey};
        SubsetSize(Pairs(g) - sub.visited, Pairs(g) - visited);
        if here < rest then rest else here
  }

  /**
   The recursion depth of a search is bounded by the graph: starting with
   nothing travelled, `Finder` frames nest at most one deeper than there are
   travelable key pairs, whether or not the search succeeds.
   */
  lemma FindDepth<K, V>(g: Graph<K, V>, v: V, fromKey: K, toKey: K)
    ensures FindNesting(g, v, fromKey, toKey, {}) <= |Pairs(g)| + 1
  {
    assert Pairs(g) - {} == Pairs(g);
  }

  /** A found path has at most one step more than there are travelable key pairs. */
  lemma FoundPathShort<K, V>(g: Graph<K, V>, v: V, fromKey: K, toKey: K)
    requires WellFormed(g)
    ensures var res := Find(g, v, fromKey, toKey, {});
      res.found ==> |res.path| <= |Pairs(g)| + 1
  {
    var res := Find(g, v, fromKey, toKey, {});
    FindSound(g, v, fromKey, toKey, {});
    if res.found {
      var pairs := seq(|res.path| - 1, i requires 0 <= i < |res.path| - 1 => Travelled(res.path[i]));
      DistinctBound(pairs, Pairs(g));
    }
  }

  /**
   Direct hit wins: when the exact (fromKey, toKey) bucket holds a rule the
   running value may use (any non-Direct rule, or a Direct rule whose literal
   is `v`), the search answers with a single step, the first such rule, and
   marks nothing travelled.
   */
  lemma DirectHitWins<K, V>(g: Graph<K, V>, v: V, fromKey: K, toKey: K, visited: set<(K, K)>, k: int)
    requires WellFormed(g)
    requires HasBucket(g, fromKey, toKey)
    requires 0 <= k < |Bucket(g, fromKey, toKey)| && Eligible(Bucket(g, fromKey, toKey)[k], v)
    ensures var res := Find(g, v, fromKey, toKey, visited);
      && res.found
      && res.visited == visited
      && |res.path| == 1
      && exists j | 0 <= j <= k ::
        && res.path[0] == Bucket(g, fromKey, toKey)[j]
        && Eligible(Bucket(g, fromKey, toKey)[j], v)
        && forall m | 0 <= m < j :: !Eligible(Bucket(g, fromKey, toKey)[m], v)
  {
    var bucket := Bucket(g, fromKey, toKey);
    assert Homed(bucket, fromKey, toKey);
    assert HitMatches(bucket[k], v, toKey);
    var direct := FirstHit(bucket, v, toKey);
    assert direct.Some? && direct.value <= k;
  }

  /** A key with no outgoing bucket reaches nothing. */
  lemma NoBucketsNotFound<K, V>(g: Graph<K, V>, v: V, fromKey: K, toKey: K, visited: set<(K, K)>)
    requires fromKey !in g.edges
    ensures Find(g, v, fromKey, toKey, visited) == Outcome(false, [], visited)
  {
  }

  /** A neighbour the value may not use, or whose pair is travelled, is passed over and marks nothing. */
  lemma ExploreSkips<K, V>(g: Graph<K, V>, cands: seq<Rule<K, V>>, v: V, fromKey: K, toKey: K, visited: set<(K, K)>)
    requires forall i | 0 <= i < |cands| :: (fromKey, cands[i].keyB) in Pairs(g)
    requires cands != [] && (!Eligible(cands[0], v) || (fromKey, cands[0].keyB) in visited)
    ensures Explore(g, cands, v, fromKey, toKey, visited) == Explore(g, cands[1..], v, fromKey, toKey, visited)
  {
  }

  /**
   A neighbour that is tried and fails leaves the rest of the loop to run with
   the travelled set that branch handed back.
   */
  lemma ExploreFailsOn<K, V>(g: Graph<K, V>, cands: seq<Rule<K, V>>, v: V, fromKey: K, toKey: K,
                             visited: set<(K, K)>, after: set<(K, K)>)
    requires forall i | 0 <= i < |cands| :: (fromKey, cands[i].keyB) in Pairs(g)
    requires cands != [] && Eligible(cands[0], v) && (fromKey, cands[0].keyB) !in visited
    requires Find(g, NextValue(cands[0], v), cands[0].keyB, toKey, visited + {(fromKey, cands[0].keyB)})
      == Outcome(false, [], after)
    ensures Explore(g, cands, v, fromKey, toKey, visited) == Explore(g, cands[1..], v, fromKey, toKey, after)
  {
  }
}
