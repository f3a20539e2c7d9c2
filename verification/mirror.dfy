/** The mirror edge of a rule (`TranslationExtensions.Swap`). */
module Mirror {
  import opened Wrappers
  import opened Rules

  /**
   The reverse edge: a Direct rule becomes the Direct rule with keys and
   literals exchanged; any other rule (a forward-only one included) becomes a
   plain rule with keys and delegates exchanged.
   */
  function Swap<K, V(!new)>(t: Rule<K, V>): (s: Rule<K, V>)
    ensures s.keyA == t.keyB && s.keyB == t.keyA
    ensures s.Direct? <==> t.Direct?
    ensures !s.ForwardOnly?
    ensures t.Direct? ==> s.directA == t.directB && s.directB == t.directA
    ensures t.Direct? ==> forall x :: Invoke(ValueB(s), x) == Some(t.directA)
    ensures !t.Direct? ==> ValueA(s) == ValueB(t) && ValueB(s) == ValueA(t)
  {
    match t
    case Direct(a, literalA, b, literalB) => Direct(b, literalB, a, literalA)
    case _ => Plain(t.keyB, ValueB(t), t.keyA, ValueA(t))
  }

  /**
   Swapping twice gives back the rule's keys, literals and delegates; a
   non-forward-only rule comes back identical, a forward-only one comes back
   as the equivalent plain rule.
   */
  lemma SwapInvolution<K, V(!new)>(t: Rule<K, V>)
    ensures Swap(Swap(t)).keyA == t.keyA && Swap(Swap(t)).keyB == t.keyB
    ensures ValueA(Swap(Swap(t))) == ValueA(t) && ValueB(Swap(Swap(t))) == ValueB(t)
    ensures t.Direct? ==> Swap(Swap(t)).directA == t.directA && Swap(Swap(t)).directB == t.directB
    ensures !t.ForwardOnly? ==> Swap(Swap(t)) == t
    ensures t.ForwardOnly? ==> Swap(Swap(t)) == Plain(t.keyA, None, t.keyB, Some(t.forward))
  {
  }
}
