/**
 `Translator.TryTranslation`: search, collapse the found path, then fold each
 step's `ValueB` over the input value. On failure the answer is
 `(false, empty list, default(TValue))`; the default value is a parameter.
 */
module Translator {
  import opened Wrappers
  import opened Rules
  import opened Mirror
  import opened RuleGraph
  import opened Search
  import opened Collapsing

  /** The tuple `(foundTranslation, translationSteps)` together with the `out translated` value. */
  datatype Answer<K, !V> = Answer(found: bool, steps: seq<Rule<K, V>>, translated: V)

  /**
   `translationSteps.Aggregate(fromValue, (acc, t) => t.ValueB(acc))`; invoking
   a null `ValueB` is the null-reference failure `None`.
   */
  function Fold<K, V>(steps: seq<Rule<K, V>>, x: V): Option<V>
    decreases |steps|
  {
    if steps == [] then Some(x)
    else
      match Invoke(ValueB(steps[0]), x)
      case None => None
      case Some(y) => Fold(steps[1..], y)
  }

  function TryTranslation<K(==), V(==)>(g: Graph<K, V>, fromValue: V, fromKey: K, toKey: K, default: V)
    : (r: Result<Answer<K, V>, Fault>)
    ensures r.Failure? ==> r.error == NullEquation
    ensures r.Success? && !r.value.found ==> r.value.steps == [] && r.value.translated == default
    ensures r.Success? && r.value.found ==> NoLoopBack(r.value.steps)
  {
    var search := Find(g, fromValue, fromKey, toKey, {});
    if search.found then
      var steps := Collapsed(search.path);
      match Fold(steps, fromValue)
      case None => Failure(NullEquation)
      case Some(translated) => Success(Answer(true, steps, translated))
    else
      Success(Answer(false, [], default))
  }

  /** Folding a concatenation folds the first part, then the second from where the first left off. */
  lemma {:induction false} FoldAppend<K, V>(xs: seq<Rule<K, V>>, ys: seq<Rule<K, V>>, x: V)
    ensures Fold(xs + ys, x) == (match Fold(xs, x) case None => None case Some(y) => Fold(ys, y))
    decreases |xs|
  {
    if xs == [] {
      assert xs + ys == ys;
    } else {
      assert (xs + ys)[1..] == xs[1..] + ys;
      match Invoke(ValueB(xs[0]), x)
      case None =>
      case Some(y) => FoldAppend(xs[1..], ys, y);
    }
  }

  /** A non-empty path of Direct steps translates any input to the last step's literal. */
  lemma {:induction false} FoldDirect<K, V>(steps: seq<Rule<K, V>>, x: V)
    requires |steps| > 0
    requires forall i | 0 <= i < |steps| :: steps[i].Direct?
    ensures Fold(steps, x) == Some(steps[|steps| - 1].directB)
    decreases |steps|
  {
    if |steps| > 1 {
      FoldDirect(steps[1..], steps[0].directB);
    }
  }

  /** Every rule of `steps` carries a `ValueB` delegate. */
  ghost predicate Applicable<K, V>(steps: seq<Rule<K, V>>)
  {
    forall i | 0 <= i < |steps| :: ValueB(steps[i]).Some?
  }

  lemma {:induction false} FoldApplicable<K, V>(steps: seq<Rule<K, V>>, x: V)
    requires Applicable(steps)
    ensures Fold(steps, x).Some?
    decreases |steps|
  {
    if steps != [] {
      FoldApplicable(steps[1..], ValueB(steps[0]).value(x));
    }
  }

  /** Every rule stored in the graph carries a `ValueB` delegate. */
  ghost predicate GraphApplicable<K, V>(g: Graph<K, V>)
  {
    forall a, b | a in g.edges && b in g.edges[a] :: Applicable(g.edges[a][b])
  }

  /**
   A rule as the public constructors build it: it has a `ValueB`, and unless
   it is forward-only (and so never mirrored) it has a `ValueA`.
   */
  ghost predicate Registrable<K, V>(t: Rule<K, V>)
  {
    ValueB(t).Some? && (!t.ForwardOnly? ==> ValueA(t).Some?)
  }

  /**
   A successful search in a well-formed graph gives a translation whose steps
   are graph rules forming a chain from `fromKey` to `toKey` (or nothing,
   when the detours it collapsed started and ended at the same key), and
   whose value is the fold of their `ValueB` delegates over `fromValue`.
   */
  lemma TryTranslationSound<K, V>(g: Graph<K, V>, fromValue: V, fromKey: K, toKey: K, default: V)
    requires WellFormed(g)
    ensures var r := TryTranslation(g, fromValue, fromKey, toKey, default);
      r.Success? && r.value.found ==>
        && (r.value.steps == [] ==> fromKey == toKey)
        && (r.value.steps != [] ==> Chain(r.value.steps, fromKey, toKey))
        && InGraph(g, r.value.steps)
        && Fold(r.value.steps, fromValue) == Some(r.value.translated)
    ensures TryTranslation(g, fromValue, fromKey, toKey, default).Success? ==>
      TryTranslation(g, fromValue, fromKey, toKey, default).value.found
        == Find(g, fromValue, fromKey, toKey, {}).found
  {
    var search := Find(g, fromValue, fromKey, toKey, {});
    FindSound(g, fromValue, fromKey, toKey, {});
    if search.found {
      var steps := Collapsed(search.path);
      CollapsedChain(search.path, fromKey, toKey);
      SubsequenceMembers(steps, search.path);
      forall i | 0 <= i < |steps|
        ensures steps[i] in Bucket(g, steps[i].keyA, steps[i].keyB)
      {
        var m :| 0 <= m < |search.path| && steps[i] == search.path[m];
      }
    }
  }

  /** In a well-formed graph whose rules all carry a `ValueB`, a translation never meets a null delegate. */
  lemma ApplicableNeverFaults<K, V>(g: Graph<K, V>, fromValue: V, fromKey: K, toKey: K, default: V)
    requires WellFormed(g) && GraphApplicable(g)
    ensures TryTranslation(g, fromValue, fromKey, toKey, default).Success?
  {
    var search := Find(g, fromValue, fromKey, toKey, {});
    FindSound(g, fromValue, fromKey, toKey, {});
    if search.found {
      var steps := Collapsed(search.path);
      SubsequenceMembers(steps, search.path);
      forall i | 0 <= i < |steps|
        ensures ValueB(steps[i]).Some?
      {
        var m :| 0 <= m < |search.path| && steps[i] == search.path[m];
        var t := search.path[m];
        assert HasBucket(g, t.keyA, t.keyB);
        var k :| 0 <= k < |Bucket(g, t.keyA, t.keyB)| && Bucket(g, t.keyA, t.keyB)[k] == t;
      }
      FoldApplicable(steps, fromValue);
    }
  }

  lemma {:induction false} MirrorsApplicable<K, V(!new)>(ts: seq<Rule<K, V>>)
    requires forall i | 0 <= i < |ts| :: Registrable(ts[i])
    ensures Applicable(ts + Mirrors(ts))
    decreases |ts|
  {
    if ts != [] {
      MirrorsApplicable(ts[1..]);
      var head := if ts[0].ForwardOnly? then [] else [Swap(ts[0])];
      assert Mirrors(ts) == head + Mirrors(ts[1..]);
      var all := ts + Mirrors(ts);
      forall i | 0 <= i < |all|
        ensures ValueB(all[i]).Some?
      {
        if i >= |ts| + |head| {
          assert all[i] == (ts[1..] + Mirrors(ts[1..]))[i - |head| - 1];
        } else if i > 0 && i < |ts| {
          assert all[i] == (ts[1..] + Mirrors(ts[1..]))[i - 1];
        }
      }
    }
  }

  lemma {:induction false} FilterApplicable<K, V>(ts: seq<Rule<K, V>>, a: K, b: K)
    requires Applicable(ts)
    ensures Applicable(Filter(ts, a, b))
    decreases |ts|
  {
    if ts != [] {
      FilterApplicable(ts[1..], a, b);
    }
  }

  /**
   Registering rules built by the public constructors keeps every stored rule
   applicable: the mirror of a rule other than a forward-only one takes its
   `ValueB` from the rule's `ValueA`.
   */
  lemma AddRangeApplicable<K, V(!new)>(g: Graph<K, V>, ts: seq<Rule<K, V>>)
    requires WellFormed(g) && GraphApplicable(g)
    requires forall i | 0 <= i < |ts| :: Registrable(ts[i])
    requires AddRange(g, ts).Success?
    ensures GraphApplicable(AddRange(g, ts).value)
  {
    var g' := AddRange(g, ts).value;
    MirrorsApplicable(ts);
    forall a, b | a in g'.edges && b in g'.edges[a]
      ensures Applicable(g'.edges[a][b])
    {
      AddRangeBuckets(g, ts, a, b);
      FilterApplicable(ts + Mirrors(ts), a, b);
      assert g'.edges[a][b] == Bucket(g', a, b);
      if HasBucket(g, a, b) {
        assert Bucket(g, a, b) == g.edges[a][b];
      }
    }
  }

  lemma {:induction false} MirrorsContain<K, V(!new)>(ts: seq<Rule<K, V>>, i: int)
    requires 0 <= i < |ts| && !ts[i].ForwardOnly?
    ensures Swap(ts[i]) in Mirrors(ts)
    decreases |ts|
  {
    if i > 0 {
      MirrorsContain(ts[1..], i - 1);
      assert ts[1..][i - 1] == ts[i];
    }
  }

  lemma {:induction false} FilterContains<K, V>(ts: seq<Rule<K, V>>, t: Rule<K, V>)
    requires t in ts
    ensures t in Filter(ts, t.keyA, t.keyB)
    decreases |ts|
  {
    if ts[0] != t {
      FilterContains(ts[1..], t);
    }
  }

  /** A rule `t` that sits in a bucket, is the first step of a translation whenever the value may use it. */
  lemma StoredRuleTranslates<K, V>(g: Graph<K, V>, t: Rule<K, V>, x: V, default: V)
    requires WellFormed(g) && GraphApplicable(g)
    requires t in Bucket(g, t.keyA, t.keyB) && Eligible(t, x)
    ensures var r := TryTranslation(g, x, t.keyA, t.keyB, default);
      r.Success? && r.value.found && |r.value.steps| == 1
  {
    var bucket := Bucket(g, t.keyA, t.keyB);
    var k :| 0 <= k < |bucket| && bucket[k] == t;
    DirectHitWins(g, x, t.keyA, t.keyB, {}, k);
    var path := Find(g, x, t.keyA, t.keyB, {}).path;
    CollapsedKeeps(path);
    ApplicableNeverFaults(g, x, t.keyA, t.keyB, default);
  }

  /** The rule itself lands in the bucket of its own direction. */
  lemma RegisteredForward<K, V(!new)>(g: Graph<K, V>, ts: seq<Rule<K, V>>, i: int)
    requires WellFormed(g) && AddRange(g, ts).Success?
    requires 0 <= i < |ts|
    ensures ts[i] in Bucket(AddRange(g, ts).value, ts[i].keyA, ts[i].keyB)
  {
    var t := ts[i];
    var all := ts + Mirrors(ts);
    AddRangeBuckets(g, ts, t.keyA, t.keyB);
    AddRangeFails(g, ts);
    assert all[i] == t;
    FilterContains(all, t);
  }

  /** The mirror of a two-way rule lands in the bucket of the opposite direction. */
  lemma RegisteredBackward<K, V(!new)>(g: Graph<K, V>, ts: seq<Rule<K, V>>, i: int)
    requires WellFormed(g) && AddRange(g, ts).Success?
    requires 0 <= i < |ts| && !ts[i].ForwardOnly?
    ensures Swap(ts[i]) in Bucket(AddRange(g, ts).value, ts[i].keyB, ts[i].keyA)
  {
    var t := ts[i];
    var s := Swap(t);
    var all := ts + Mirrors(ts);
    AddRangeBuckets(g, ts, t.keyB, t.keyA);
    AddRangeFails(g, ts);
    MirrorsContain(ts, i);
    var k :| 0 <= k < |Mirrors(ts)| && Mirrors(ts)[k] == s;
    assert all[|ts| + k] == s;
    FilterContains(all, s);
  }

  /**
   Mirror symmetry: after registering rules built by the public constructors,
   each of them translates from its `KeyA` to its `KeyB` in one step for any
   value it accepts, and each one that is not forward-only also translates
   back in one step for any value its mirror accepts (a Direct rule's target
   literal).
   */
  lemma MirrorSymmetry<K, V(!new)>(g: Graph<K, V>, ts: seq<Rule<K, V>>, i: int, x: V, y: V, default: V)
    requires WellFormed(g) && GraphApplicable(g)
    requires forall j | 0 <= j < |ts| :: Registrable(ts[j])
    requires AddRange(g, ts).Success?
    requires 0 <= i < |ts|
    requires Eligible(ts[i], x) && Eligible(Swap(ts[i]), y)
    ensures var r := TryTranslation(AddRange(g, ts).value, x, ts[i].keyA, ts[i].keyB, default);
      r.Success? && r.value.found && |r.value.steps| == 1
    ensures !ts[i].ForwardOnly? ==>
      var r := TryTranslation(AddRange(g, ts).value, y, ts[i].keyB, ts[i].keyA, default);
      r.Success? && r.value.found && |r.value.steps| == 1
  {
    var g' := AddRange(g, ts).value;
    var t := ts[i];
    AddRangeApplicable(g, ts);
    AddRangeBuckets(g, ts, t.keyA, t.keyB);
    RegisteredForward(g, ts, i);
    StoredRuleTranslates(g', t, x, default);
    if !t.ForwardOnly? {
      RegisteredBackward(g, ts, i);
      StoredRuleTranslates(g', Swap(t), y, default);
    }
  }

  lemma {:induction false} InsertAllSources<K, V>(g: Graph<K, V>, ts: seq<Rule<K, V>>, a: K)
    requires a !in g.edges
    requires forall i | 0 <= i < |ts| :: ts[i].keyA != a
    ensures a !in InsertAll(g, ts).edges
    decreases |ts|
  {
    if ts != [] {
      InsertAllSources(Insert(g, ts[0]), ts[1..], a);
    }
  }

  /**
   Forward-only irreversibility: registering a forward-only rule from `a` to a
   distinct key `b` that has no rules of its own leaves a query from `b` back
   to `a` not found, for every value.
   */
  lemma ForwardOnlyIrreversible<K, V(!new)>(g: Graph<K, V>, a: K, b: K, f: V -> V, x: V, default: V)
    requires a != b && b !in g.edges
    requires Add(g, NewForwardOnlyTranslation(a, b, f)).Success?
    ensures TryTranslation(Add(g, NewForwardOnlyTranslation(a, b, f)).value, x, b, a, default)
      == Success(Answer(false, [], default))
  {
    var t := NewForwardOnlyTranslation(a, b, f);
    assert [t] + Mirrors([t]) == [t];
    InsertAllSources(g, [t], b);
  }

  /**
   Forward-only irreversibility in any graph: after registering a forward-only
   rule from `a` to a distinct `b`, every step from `b` to `a` of any answer
   the new graph gives was already stored under `b`-to-`a` before, so the new
   rule never serves a query in the reverse direction.
   */
  lemma ForwardOnlyNeverReversed<K, V(!new)>(g: Graph<K, V>, a: K, b: K, f: V -> V,
                                              x: V, fromKey: K, toKey: K, default: V)
    requires WellFormed(g) && a != b
    requires Add(g, NewForwardOnlyTranslation(a, b, f)).Success?
    ensures var r := TryTranslation(Add(g, NewForwardOnlyTranslation(a, b, f)).value, x, fromKey, toKey, default);
      r.Success? && r.value.found ==>
        forall k | 0 <= k < |r.value.steps| && r.value.steps[k].keyA == b && r.value.steps[k].keyB == a ::
          r.value.steps[k] in Bucket(g, b, a)
  {
    var t := NewForwardOnlyTranslation(a, b, f);
    var g' := Add(g, t).value;
    AddRangeBuckets(g, [t], b, a);
    AddRegisters(g, t);
    TryTranslationSound(g', x, fromKey, toKey, default);
  }
}
