/**
 The three kinds of translation rule: a plain `Translation`, a literal
 `DirectTranslation` and a `ForwardOnlyTranslation`, with the constructors the
 library offers. Every rule is an edge from `keyA` to `keyB`; the engine steps
 from `keyA` to `keyB` by applying `ValueB`.

 Delegates are Dafny arrows `V -> V`. A null delegate is `None`: a
 forward-only rule's `ValueA` is null. The slots of a plain rule are optional
 so that `Swap` stays total on a forward-only rule; the library itself never
 mirrors one, because `AddRange` filters forward-only rules out before it
 swaps (src/Translator/Translator.cs:19) and `Swap` is internal.
 Datatype values are immutable, which is the readonly-field guarantee.
 */
module Rules {
  import opened Wrappers

  datatype Rule<K, !V> =
    | Plain(keyA: K, valueA: Option<V -> V>, keyB: K, valueB: Option<V -> V>)
    | Direct(keyA: K, directA: V, keyB: K, directB: V)
    | ForwardOnly(keyA: K, keyB: K, forward: V -> V)

  /** The `ValueA` delegate of a rule (the B-to-A transform). */
  function ValueA<K, V>(t: Rule<K, V>): Option<V -> V>
  {
    match t
    case Plain(_, a, _, _) => a
    case Direct(_, literalA, _, _) => Some(_ => literalA)
    case ForwardOnly(_, _, _) => None
  }

  /** The `ValueB` delegate of a rule (the A-to-B transform, applied when stepping along the edge). */
  function ValueB<K, V>(t: Rule<K, V>): Option<V -> V>
  {
    match t
    case Plain(_, _, _, b) => b
    case Direct(_, _, _, literalB) => Some(_ => literalB)
    case ForwardOnly(_, _, f) => Some(f)
  }

  /** Invoking an optional delegate; `None` is the null-reference failure. */
  function Invoke<V>(f: Option<V -> V>, x: V): Option<V>
  {
    match f
    case None => None
    case Some(g) => Some(g(x))
  }

  /** `new Translation(keyA, valueA, keyB, valueB)`. */
  function NewTranslation<K, V(!new)>(keyA: K, valueA: V -> V, keyB: K, valueB: V -> V): (t: Rule<K, V>)
    ensures t.Plain?
    ensures t.keyA == keyA && t.keyB == keyB
    ensures forall x :: Invoke(ValueA(t), x) == Some(valueA(x))
    ensures forall x :: Invoke(ValueB(t), x) == Some(valueB(x))
  {
    Plain(keyA, Some(valueA), keyB, Some(valueB))
  }

  /** `new Translation(seed, keyA, valueA, keyB, valueB)`: both delegates close over the seed. */
  function NewSeededTranslation<K, V(!new)>(seed: V, keyA: K, valueA: (V, V) -> V, keyB: K, valueB: (V, V) -> V)
    : (t: Rule<K, V>)
    ensures t.Plain?
    ensures t.keyA == keyA && t.keyB == keyB
    ensures forall x :: Invoke(ValueA(t), x) == Some(valueA(x, seed))
    ensures forall x :: Invoke(ValueB(t), x) == Some(valueB(x, seed))
  {
    NewTranslation(keyA, x => valueA(x, seed), keyB, x => valueB(x, seed))
  }

  /** `new DirectTranslation(keyA, valueA, keyB, valueB)`: constant delegates plus the stored literals. */
  function NewDirectTranslation<K, V(!new)>(keyA: K, valueA: V, keyB: K, valueB: V): (t: Rule<K, V>)
    ensures t.Direct?
    ensures t.keyA == keyA && t.keyB == keyB
    ensures t.directA == valueA && t.directB == valueB
    ensures forall x :: Invoke(ValueA(t), x) == Some(valueA)
    ensures forall x :: Invoke(ValueB(t), x) == Some(valueB)
  {
    Direct(keyA, valueA, keyB, valueB)
  }

  /** `new ForwardOnlyTranslation(keyA, keyB, valueB)`: no B-to-A delegate. */
  function NewForwardOnlyTranslation<K, V(!new)>(keyA: K, keyB: K, valueB: V -> V): (t: Rule<K, V>)
    ensures t.ForwardOnly?
    ensures t.keyA == keyA && t.keyB == keyB
    ensures forall v :: Eligible(t, v) && NextValue(t, v) == v
    ensures ValueA(t).None?
    ensures forall x :: Invoke(ValueB(t), x) == Some(valueB(x))
  {
    ForwardOnly(keyA, keyB, valueB)
  }

  /**
   The search's filter on neighbouring rules: a Direct rule needs its literal
   to equal the running value, any other rule is matched on keys alone.
   */
  predicate Eligible<K, V(==)>(t: Rule<K, V>, v: V)
  {
    t.Direct? ==> t.directA == v
  }

  /** The search's test on the rules of the exact (fromKey, toKey) bucket. */
  predicate HitMatches<K(==), V(==)>(t: Rule<K, V>, v: V, toKey: K)
  {
    if t.Direct? then t.directA == v else t.keyB == toKey
  }

  /** The value the search carries past a rule: a Direct rule's far literal, otherwise unchanged. */
  function NextValue<K, V>(t: Rule<K, V>, v: V): V
  {
    if t.Direct? then t.directB else v
  }

  /** Matching a non-Direct rule never looks at the value; matching a Direct rule always does. */
  lemma MatchingPolicy<K, V>(t: Rule<K, V>, v: V, w: V, toKey: K)
    ensures !t.Direct? ==> Eligible(t, v) && (HitMatches(t, v, toKey) <==> t.keyB == toKey)
    ensures !t.Direct? ==> NextValue(t, v) == v
    ensures t.Direct? ==> (Eligible(t, v) && Eligible(t, w) ==> v == w)
    ensures t.Direct? ==> (HitMatches(t, v, toKey) <==> Eligible(t, v))
  {
  }
}
