/**
 The rule graph of `Translator` and its registration operations `Add` and
 `AddRange`. The graph maps a key to a map from key to the bucket of rules
 between that exact pair. A .NET `Dictionary` that is only ever added to
 enumerates its entries in insertion order, so the graph also records, per
 source key, the order in which its target buckets were created; a bucket is a
 sequence in insertion order.
 */
module RuleGraph {
  import opened Wrappers
  import opened Rules
  import opened Mirror

  datatype Graph<K(==), !V> = Graph(edges: map<K, map<K, seq<Rule<K, V>>>>, order: map<K, seq<K>>)

  /** The graph of a freshly constructed translator. */
  function Empty<K(==), V>(): Graph<K, V>
  {
    Graph(map[], map[])
  }

  predicate HasBucket<K(==), V>(g: Graph<K, V>, a: K, b: K)
  {
    a in g.edges && b in g.edges[a]
  }

  /** The rules stored under [a][b], empty when there is no such bucket. */
  function Bucket<K(==), V>(g: Graph<K, V>, a: K, b: K): seq<Rule<K, V>>
  {
    if HasBucket(g, a, b) then g.edges[a][b] else []
  }

  /** `ks` lists every element of `s` exactly once. */
  predicate Enumerates<K(==)>(ks: seq<K>, s: set<K>)
  {
    && (forall i, j | 0 <= i < j < |ks| :: ks[i] != ks[j])
    && (forall i | 0 <= i < |ks| :: ks[i] in s)
    && (forall k | k in s :: k in ks)
  }

  /** Every rule of `rs` goes from `a` to `b`. */
  predicate Homed<K(==), V>(rs: seq<Rule<K, V>>, a: K, b: K)
  {
    forall i | 0 <= i < |rs| :: rs[i].keyA == a && rs[i].keyB == b
  }

  /**
   The shape every graph built by registration has: the enumeration order
   lists each inner map's keys once, and bucket [a][b] holds only rules from
   `a` to `b`.
   */
  ghost predicate WellFormed<K, V>(g: Graph<K, V>)
  {
    && g.edges.Keys == g.order.Keys
    && (forall a | a in g.edges :: Enumerates(g.order[a], g.edges[a].Keys))
    && (forall a, b | a in g.edges && b in g.edges[a] :: Homed(g.edges[a][b], a, b))
  }

  /** The buckets of `m` for the keys `ks`, concatenated in that order. */
  function Concat<K(==), V>(m: map<K, seq<Rule<K, V>>>, ks: seq<K>): seq<Rule<K, V>>
  {
    if ks == [] then [] else (if ks[0] in m then m[ks[0]] else []) + Concat(m, ks[1..])
  }

  /** `fromSet.SelectMany(x => x.Value)`: all rules leaving `a`, bucket by bucket. */
  function Neighbours<K(==), V>(g: Graph<K, V>, a: K): seq<Rule<K, V>>
  {
    if a in g.edges && a in g.order then Concat(g.edges[a], g.order[a]) else []
  }

  /** The directed key pairs the search can mark as travelled: a key and the `KeyB` of a rule leaving it. */
  ghost function Pairs<K, V>(g: Graph<K, V>): set<(K, K)>
  {
    set a, i | a in g.edges && 0 <= i < |Neighbours(g, a)| :: (a, Neighbours(g, a)[i].keyB)
  }

  /** Every rule leaving `a` gives a pair the search can travel. */
  lemma NeighboursPairs<K, V>(g: Graph<K, V>, a: K)
    ensures forall i | 0 <= i < |Neighbours(g, a)| :: (a, Neighbours(g, a)[i].keyB) in Pairs(g)
  {
  }

  lemma {:induction false} ConcatHomed<K, V>(m: map<K, seq<Rule<K, V>>>, ks: seq<K>, a: K)
    requires forall k | k in m :: Homed(m[k], a, k)
    ensures forall i | 0 <= i < |Concat(m, ks)| ::
      && Concat(m, ks)[i].keyA == a
      && Concat(m, ks)[i].keyB in m
      && Concat(m, ks)[i] in m[Concat(m, ks)[i].keyB]
  {
    if ks != [] {
      ConcatHomed(m, ks[1..], a);
      var head := if ks[0] in m then m[ks[0]] else [];
      assert Concat(m, ks) == head + Concat(m, ks[1..]);
      forall i | 0 <= i < |Concat(m, ks)|
        ensures Concat(m, ks)[i].keyA == a
        ensures Concat(m, ks)[i].keyB in m && Concat(m, ks)[i] in m[Concat(m, ks)[i].keyB]
      {
        if i < |head| {
          assert Concat(m, ks)[i] == m[ks[0]][i];
        } else {
          assert Concat(m, ks)[i] == Concat(m, ks[1..])[i - |head|];
        }
      }
    }
  }

  /** In a well-formed graph every neighbour of `a` leaves `a` and sits in the bucket of its own keys. */
  lemma NeighboursHomed<K, V>(g: Graph<K, V>, a: K)
    requires WellFormed(g)
    ensures forall i | 0 <= i < |Neighbours(g, a)| ::
      && Neighbours(g, a)[i].keyA == a
      && HasBucket(g, a, Neighbours(g, a)[i].keyB)
      && Neighbours(g, a)[i] in Bucket(g, a, Neighbours(g, a)[i].keyB)
  {
    if a in g.edges {
      ConcatHomed(g.edges[a], g.order[a], a);
    }
  }

  /** Appends `t` to bucket [KeyA][KeyB], creating the bucket (last in enumeration order) if needed. */
  function Insert<K(==), V>(g: Graph<K, V>, t: Rule<K, V>): Graph<K, V>
  {
    var inner := if t.keyA in g.edges then g.edges[t.keyA] else map[];
    var targets := if t.keyA in g.order then g.order[t.keyA] else [];
    if t.keyB in inner then
      Graph(g.edges[t.keyA := inner[t.keyB := inner[t.keyB] + [t]]], g.order)
    else
      Graph(g.edges[t.keyA := inner[t.keyB := [t]]], g.order[t.keyA := targets + [t.keyB]])
  }

  function InsertAll<K(==), V>(g: Graph<K, V>, ts: seq<Rule<K, V>>): Graph<K, V>
    decreases |ts|
  {
    if ts == [] then g else InsertAll(Insert(g, ts[0]), ts[1..])
  }

  /** The rules of `ts` that go from `a` to `b`, in order. */
  function Filter<K(==), V>(ts: seq<Rule<K, V>>, a: K, b: K): (rs: seq<Rule<K, V>>)
    ensures Homed(rs, a, b)
    ensures |rs| <= |ts|
  {
    if ts == [] then []
    else (if ts[0].keyA == a && ts[0].keyB == b then [ts[0]] else []) + Filter(ts[1..], a, b)
  }

  /** The mirrors `AddRange` synthesises: the Swap of every rule that is not forward-only. */
  function Mirrors<K(==), V(!new)>(ts: seq<Rule<K, V>>): seq<Rule<K, V>>
  {
    if ts == [] then []
    else (if ts[0].ForwardOnly? then [] else [Swap(ts[0])]) + Mirrors(ts[1..])
  }

  /** Some rule of `ts` would fill a pair that already has a bucket in `g`. */
  predicate Collides<K(==), V>(g: Graph<K, V>, ts: seq<Rule<K, V>>)
  {
    |ts| > 0 && (HasBucket(g, ts[0].keyA, ts[0].keyB) || Collides(g, ts[1..]))
  }

  /**
   `AddRange`: the rules together with their mirrors are grouped by pair and
   each group becomes a new bucket; `Dictionary.Add` throws when a pair already
   has a bucket from an earlier call.
   */
  function AddRange<K(==), V(!new)>(g: Graph<K, V>, ts: seq<Rule<K, V>>): Result<Graph<K, V>, Fault>
  {
    var all := ts + Mirrors(ts);
    if Collides(g, all) then Failure(DuplicateBucket) else Success(InsertAll(g, all))
  }

  lemma {:induction false} NothingCollidesWithEmpty<K, V>(ts: seq<Rule<K, V>>)
    ensures !Collides(Empty(), ts)
    decreases |ts|
  {
    if ts != [] {
      NothingCollidesWithEmpty(ts[1..]);
    }
  }

  /** `Add(t)` is `AddRange(new[] { t })`. */
  function Add<K(==), V(!new)>(g: Graph<K, V>, t: Rule<K, V>): Result<Graph<K, V>, Fault>
  {
    AddRange(g, [t])
  }

  lemma InsertBucket<K, V>(g: Graph<K, V>, t: Rule<K, V>, a: K, b: K)
    ensures Bucket(Insert(g, t), a, b)
      == Bucket(g, a, b) + (if t.keyA == a && t.keyB == b then [t] else [])
    ensures HasBucket(Insert(g, t), a, b) <==> HasBucket(g, a, b) || (t.keyA == a && t.keyB == b)
  {
  }

  /** Inserting a sequence of rules appends to each bucket exactly the rules of that pair, in order. */
  lemma {:induction false} InsertAllBuckets<K, V>(g: Graph<K, V>, ts: seq<Rule<K, V>>, a: K, b: K)
    ensures Bucket(InsertAll(g, ts), a, b) == Bucket(g, a, b) + Filter(ts, a, b)
    ensures HasBucket(InsertAll(g, ts), a, b) <==> HasBucket(g, a, b) || Filter(ts, a, b) != []
    decreases |ts|
  {
    if ts != [] {
      InsertBucket(g, ts[0], a, b);
      InsertAllBuckets(Insert(g, ts[0]), ts[1..], a, b);
    }
  }

  /** Insertion keeps each source key's enumeration order listing its target keys once each. */
  lemma InsertEnumerates<K, V>(g: Graph<K, V>, t: Rule<K, V>, a: K)
    requires WellFormed(g)
    requires a in Insert(g, t).edges
    ensures a in Insert(g, t).order
    ensures Enumerates(Insert(g, t).order[a], Insert(g, t).edges[a].Keys)
  {
    var g' := Insert(g, t);
    if a != t.keyA {
      assert g'.order[a] == g.order[a] && g'.edges[a] == g.edges[a];
    } else {
      var inner := if t.keyA in g.edges then g.edges[t.keyA] else map[];
      var targets := if t.keyA in g.order then g.order[t.keyA] else [];
      assert Enumerates(targets, inner.Keys);
      if t.keyB !in inner {
        assert g'.edges[a].Keys == inner.Keys + {t.keyB};
        assert Enumerates(targets + [t.keyB], inner.Keys + {t.keyB});
      }
    }
  }

  lemma InsertWellFormed<K, V>(g: Graph<K, V>, t: Rule<K, V>)
    requires WellFormed(g)
    ensures WellFormed(Insert(g, t))
  {
    var g' := Insert(g, t);
    assert g'.edges.Keys == g'.order.Keys;
    forall a | a in g'.edges
      ensures Enumerates(g'.order[a], g'.edges[a].Keys)
    {
      InsertEnumerates(g, t, a);
    }
    forall a, b | a in g'.edges && b in g'.edges[a]
      ensures Homed(g'.edges[a][b], a, b)
    {
      InsertBucket(g, t, a, b);
      assert g'.edges[a][b] == Bucket(g', a, b);
    }
  }

  /**
   Inserting `ts` one rule at a time walks through `stages`: when each insertion
   takes stage n to stage n + 1, inserting them all takes the first stage to
   the last.
   */
  lemma {:induction false} InsertAllStages<K, V>(stages: seq<Graph<K, V>>, ts: seq<Rule<K, V>>)
    requires |stages| == |ts| + 1
    requires forall n | 0 <= n < |ts| :: Insert(stages[n], ts[n]) == stages[n + 1]
    ensures InsertAll(stages[0], ts) == stages[|ts|]
    decreases |ts|
  {
    if ts != [] {
      assert forall n | 0 <= n < |ts| - 1 :: stages[1..][n] == stages[n + 1] && ts[1..][n] == ts[n + 1];
      InsertAllStages(stages[1..], ts[1..]);
    }
  }

  lemma {:induction false} InsertAllWellFormed<K, V>(g: Graph<K, V>, ts: seq<Rule<K, V>>)
    requires WellFormed(g)
    ensures WellFormed(InsertAll(g, ts))
    decreases |ts|
  {
    if ts != [] {
      InsertWellFormed(g, ts[0]);
      InsertAllWellFormed(Insert(g, ts[0]), ts[1..]);
    }
  }

  lemma {:induction false} CollidesAppend<K, V>(g: Graph<K, V>, xs: seq<Rule<K, V>>, ys: seq<Rule<K, V>>)
    ensures Collides(g, xs + ys) <==> Collides(g, xs) || Collides(g, ys)
    decreases |xs|
  {
    if xs != [] {
      assert (xs + ys)[1..] == xs[1..] + ys;
      CollidesAppend(g, xs[1..], ys);
    } else {
      assert xs + ys == ys;
    }
  }

  lemma {:induction false} CollidesOwn<K, V>(g: Graph<K, V>, ts: seq<Rule<K, V>>)
    ensures Collides(g, ts) <==> exists i | 0 <= i < |ts| :: HasBucket(g, ts[i].keyA, ts[i].keyB)
    decreases |ts|
  {
    if ts != [] {
      CollidesOwn(g, ts[1..]);
      if exists i | 0 <= i < |ts| :: HasBucket(g, ts[i].keyA, ts[i].keyB) {
        var i :| 0 <= i < |ts| && HasBucket(g, ts[i].keyA, ts[i].keyB);
        if i > 0 {
          assert ts[1..][i - 1] == ts[i];
        }
      }
      if Collides(g, ts[1..]) {
        var i :| 0 <= i < |ts[1..]| && HasBucket(g, ts[1..][i].keyA, ts[1..][i].keyB);
        assert ts[i + 1] == ts[1..][i];
      }
    }
  }

  lemma {:induction false} CollidesMirrors<K, V(!new)>(g: Graph<K, V>, ts: seq<Rule<K, V>>)
    ensures Collides(g, Mirrors(ts))
      <==> exists i | 0 <= i < |ts| :: !ts[i].ForwardOnly? && HasBucket(g, ts[i].keyB, ts[i].keyA)
    decreases |ts|
  {
    if ts != [] {
      var head := if ts[0].ForwardOnly? then [] else [Swap(ts[0])];
      CollidesAppend(g, head, Mirrors(ts[1..]));
      CollidesMirrors(g, ts[1..]);
      if exists i | 0 <= i < |ts| :: !ts[i].ForwardOnly? && HasBucket(g, ts[i].keyB, ts[i].keyA) {
        var i :| 0 <= i < |ts| && !ts[i].ForwardOnly? && HasBucket(g, ts[i].keyB, ts[i].keyA);
        if i > 0 {
          assert ts[1..][i - 1] == ts[i];
        }
      }
      if Collides(g, Mirrors(ts[1..])) {
        var i :| 0 <= i < |ts[1..]| && !ts[1..][i].ForwardOnly? && HasBucket(g, ts[1..][i].keyB, ts[1..][i].keyA);
        assert ts[i + 1] == ts[1..][i];
      }
    }
  }

  /**
   `AddRange` fails exactly when some rule's own pair, or the reversed pair of
   a rule that is not forward-only, already has a bucket.
   */
  lemma AddRangeFails<K, V(!new)>(g: Graph<K, V>, ts: seq<Rule<K, V>>)
    ensures AddRange(g, ts).Failure? <==>
      exists i | 0 <= i < |ts| ::
        || HasBucket(g, ts[i].keyA, ts[i].keyB)
        || (!ts[i].ForwardOnly? && HasBucket(g, ts[i].keyB, ts[i].keyA))
  {
    CollidesAppend(g, ts, Mirrors(ts));
    CollidesOwn(g, ts);
    CollidesMirrors(g, ts);
  }

  /**
   A successful `AddRange` keeps the graph well formed, leaves every existing
   bucket as it was, and fills each new pair with exactly the rules and
   mirrors of that pair, in order.
   */
  lemma AddRangeBuckets<K, V(!new)>(g: Graph<K, V>, ts: seq<Rule<K, V>>, a: K, b: K)
    requires WellFormed(g)
    requires AddRange(g, ts).Success?
    ensures WellFormed(AddRange(g, ts).value)
    ensures HasBucket(g, a, b) ==> Bucket(AddRange(g, ts).value, a, b) == Bucket(g, a, b)
    ensures !HasBucket(g, a, b) ==> Bucket(AddRange(g, ts).value, a, b) == Filter(ts + Mirrors(ts), a, b)
    ensures HasBucket(AddRange(g, ts).value, a, b) <==> HasBucket(g, a, b) || Filter(ts + Mirrors(ts), a, b) != []
  {
    var all := ts + Mirrors(ts);
    InsertAllWellFormed(g, all);
    InsertAllBuckets(g, all, a, b);
    if HasBucket(g, a, b) && Filter(all, a, b) != [] {
      FilterWitness(all, a, b);
      CollidesOwn(g, all);
      assert false;
    }
  }

  lemma {:induction false} FilterWitness<K, V>(ts: seq<Rule<K, V>>, a: K, b: K)
    requires Filter(ts, a, b) != []
    ensures exists i | 0 <= i < |ts| :: ts[i].keyA == a && ts[i].keyB == b
    decreases |ts|
  {
    if !(ts[0].keyA == a && ts[0].keyB == b) {
      FilterWitness(ts[1..], a, b);
      var i :| 0 <= i < |ts[1..]| && ts[1..][i].keyA == a && ts[1..][i].keyB == b;
      assert ts[i + 1] == ts[1..][i];
    }
  }

  /**
   `Add(t)` on a fresh pair stores `t` under [KeyA][KeyB] and, unless `t` is
   forward-only, its mirror under [KeyB][KeyA]; a forward-only rule between
   two distinct keys leaves the reverse bucket untouched.
   */
  lemma AddRegisters<K, V(!new)>(g: Graph<K, V>, t: Rule<K, V>)
    requires WellFormed(g)
    requires Add(g, t).Success?
    ensures t in Bucket(Add(g, t).value, t.keyA, t.keyB)
    ensures !t.ForwardOnly? ==> Swap(t) in Bucket(Add(g, t).value, t.keyB, t.keyA)
    ensures t.ForwardOnly? && t.keyA != t.keyB ==>
      Bucket(Add(g, t).value, t.keyB, t.keyA) == Bucket(g, t.keyB, t.keyA)
  {
    var all := [t] + Mirrors([t]);
    AddRangeFails(g, [t]);
    assert !HasBucket(g, t.keyA, t.keyB);
    AddRangeBuckets(g, [t], t.keyA, t.keyB);
    AddRangeBuckets(g, [t], t.keyB, t.keyA);
    assert Mirrors([t]) == (if t.ForwardOnly? then [] else [Swap(t)]);
    if t.ForwardOnly? {
      assert all == [t];
      assert Filter(all, t.keyA, t.keyB) == [t];
    } else {
      assert all == [t, Swap(t)];
      assert !HasBucket(g, t.keyB, t.keyA) by {
        assert 0 < |[t]| && !t.ForwardOnly?;
      }
      assert t in Filter(all, t.keyA, t.keyB) by {
        assert Filter(all, t.keyA, t.keyB) == [t] + Filter([Swap(t)], t.keyA, t.keyB);
      }
      assert Swap(t) in Filter(all, t.keyB, t.keyA) by {
        assert Filter(all, t.keyB, t.keyA)
          == Filter([t], t.keyB, t.keyA) + Filter([Swap(t)], t.keyB, t.keyA);
      }
    }
  }
}
