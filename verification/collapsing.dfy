/**
 The clean-up `TryTranslation` runs on a found path: whenever the step at
 position i starts at a key that a later step j ends at, the detour i..j is
 cut out and the scan resumes at the same position.
 */
module Collapsing {
  import opened Wrappers
  import opened Rules
  import opened Search

  /** No step starts at a key that a later step ends at. */
  ghost predicate NoLoopBack<K, V>(s: seq<Rule<K, V>>)
  {
    forall i, j | 0 <= i < j < |s| :: s[i].keyA != s[j].keyB
  }

  /** `a` is `b` with some elements deleted. */
  ghost predicate IsSubsequence<T>(a: seq<T>, b: seq<T>)
    decreases |b|
  {
    a == [] || (|b| > 0 && ((a[0] == b[0] && IsSubsequence(a[1..], b[1..])) || IsSubsequence(a, b[1..])))
  }

  /** The first position j >= `from` at which step j ends where step 0 starts. */
  function ReturnFrom<K(==), V>(s: seq<Rule<K, V>>, from: nat): (r: Option<nat>)
    requires 0 < from <= |s|
    ensures r.Some? ==>
      && from <= r.value < |s|
      && s[0].keyA == s[r.value].keyB
      && forall k | from <= k < r.value :: s[0].keyA != s[k].keyB
    ensures r.None? ==> forall k | from <= k < |s| :: s[0].keyA != s[k].keyB
    decreases |s| - from
  {
    if from == |s| then None
    else if s[0].keyA == s[from].keyB then Some(from)
    else ReturnFrom(s, from + 1)
  }

  /** The inner `for j` loop at position 0: the first later step that ends where the first step starts. */
  function LoopBack<K(==), V>(s: seq<Rule<K, V>>): (r: Option<nat>)
    ensures r.Some? ==>
      && 0 < r.value < |s|
      && s[0].keyA == s[r.value].keyB
      && forall k | 0 < k < r.value :: s[0].keyA != s[k].keyB
    ensures r.None? ==> forall k | 0 < k < |s| :: s[0].keyA != s[k].keyB
  {
    if |s| == 0 then None else ReturnFrom(s, 1)
  }

  lemma {:induction false} SubsequenceOfSuffix<T>(a: seq<T>, b: seq<T>, k: nat)
    requires k <= |b|
    requires IsSubsequence(a, b[k..])
    ensures IsSubsequence(a, b)
    decreases k
  {
    if k > 0 {
      assert b[k - 1..][1..] == b[k..];
      SubsequenceOfSuffix(a, b, k - 1);
    }
  }

  lemma {:induction false} SubsequenceMembers<T>(a: seq<T>, b: seq<T>)
    requires IsSubsequence(a, b)
    ensures forall i | 0 <= i < |a| :: exists m | 0 <= m < |b| :: a[i] == b[m]
    decreases |b|
  {
    if a != [] {
      if a[0] == b[0] && IsSubsequence(a[1..], b[1..]) {
        SubsequenceMembers(a[1..], b[1..]);
        forall i | 0 < i < |a|
          ensures exists m | 0 <= m < |b| :: a[i] == b[m]
        {
          assert a[i] == a[1..][i - 1];
          var m :| 0 <= m < |b[1..]| && a[1..][i - 1] == b[1..][m];
          assert a[i] == b[m + 1];
        }
      } else {
        SubsequenceMembers(a, b[1..]);
        forall i | 0 <= i < |a|
          ensures exists m | 0 <= m < |b| :: a[i] == b[m]
        {
          var m :| 0 <= m < |b[1..]| && a[i] == b[1..][m];
          assert a[i] == b[m + 1];
        }
      }
    }
  }

  /**
   The collapsed path: no step starts where a later step ends, and it is the
   found path with some steps deleted.
   */
  function Collapsed<K(==), V>(s: seq<Rule<K, V>>): (r: seq<Rule<K, V>>)
    ensures NoLoopBack(r)
    ensures IsSubsequence(r, s)
    decreases |s|
  {
    if |s| == 0 then []
    else
      match LoopBack(s)
      case Some(j) =>
        var r := Collapsed(s[j + 1..]);
        SubsequenceOfSuffix(r, s, j + 1);
        r
      case None =>
        var rest := Collapsed(s[1..]);
        var r := [s[0]] + rest;
        assert r[1..] == rest;
        SubsequenceMembers(rest, s[1..]);
        assert forall k | 0 <= k < |rest| :: s[0].keyA != rest[k].keyB by {
          forall k | 0 <= k < |rest|
            ensures s[0].keyA != rest[k].keyB
          {
            var m :| 0 <= m < |s[1..]| && rest[k] == s[1..][m];
            assert rest[k] == s[m + 1];
          }
        }
        assert forall i, j | 0 < i < j < |r| :: r[i] == rest[i - 1] && r[j] == rest[j - 1];
        r
  }

  lemma SuffixChain<K, V>(s: seq<Rule<K, V>>, k: nat, fromKey: K, toKey: K)
    requires Chain(s, fromKey, toKey) && 0 < k < |s|
    ensures Chain(s[k..], s[k - 1].keyB, toKey)
  {
    var rest := s[k..];
    forall i | 0 <= i < |rest| - 1
      ensures rest[i].keyB == rest[i + 1].keyA
    {
      assert rest[i] == s[k + i] && rest[i + 1] == s[k + i + 1];
    }
  }

  lemma PrependChain<K, V>(t: Rule<K, V>, rest: seq<Rule<K, V>>, toKey: K)
    requires Chain(rest, t.keyB, toKey)
    ensures Chain([t] + rest, t.keyA, toKey)
  {
    var r := [t] + rest;
    forall i | 0 <= i < |r| - 1
      ensures r[i].keyB == r[i + 1].keyA
    {
      assert r[i + 1] == rest[i];
      if i > 0 {
        assert r[i] == rest[i - 1];
      }
    }
  }

  /** A chain stays a chain with the same ends; it can only collapse away entirely when it starts where it ends. */
  lemma {:induction false} CollapsedChain<K, V>(s: seq<Rule<K, V>>, fromKey: K, toKey: K)
    requires Chain(s, fromKey, toKey)
    ensures Collapsed(s) == [] ==> fromKey == toKey
    ensures Collapsed(s) != [] ==> Chain(Collapsed(s), fromKey, toKey)
    decreases |s|
  {
    match LoopBack(s)
    case Some(j) =>
      if j + 1 < |s| {
        SuffixChain(s, j + 1, fromKey, toKey);
        CollapsedChain(s[j + 1..], fromKey, toKey);
      }
    case None =>
      if |s| > 1 {
        SuffixChain(s, 1, fromKey, toKey);
        CollapsedChain(s[1..], s[0].keyB, toKey);
        if Collapsed(s[1..]) != [] {
          PrependChain(s[0], Collapsed(s[1..]), toKey);
        }
      }
  }

  /** A path without loop-backs is left unchanged. */
  lemma {:induction false} CollapsedKeeps<K, V>(s: seq<Rule<K, V>>)
    requires NoLoopBack(s)
    ensures Collapsed(s) == s
    decreases |s|
  {
    if |s| > 0 {
      assert LoopBack(s).None?;
      assert forall i, j | 0 <= i < j < |s[1..]| :: s[1..][i] == s[i + 1] && s[1..][j] == s[j + 1];
      CollapsedKeeps(s[1..]);
    }
  }

  /** Collapsing a collapsed path removes nothing. */
  lemma CollapsedIdempotent<K, V>(s: seq<Rule<K, V>>)
    ensures Collapsed(Collapsed(s)) == Collapsed(s)
  {
    CollapsedKeeps(Collapsed(s));
  }

  /** Cutting the detour i..j out of `r` leaves the prefix and the collapse of the rest as they were. */
  lemma CutDetour<K, V>(r: seq<Rule<K, V>>, i: nat, j: nat)
    requires i < j < |r| && r[i].keyA == r[j].keyB
    requires forall k | i + 1 <= k < j :: r[i].keyA != r[k].keyB
    ensures var cut := r[..i] + r[j + 1..];
      i <= |cut| && cut[..i] + Collapsed(cut[i..]) == r[..i] + Collapsed(r[i..])
  {
    var tail := r[i..];
    var cut := r[..i] + r[j + 1..];
    assert LoopBack(tail) == Some(j - i) by {
      assert tail[0] == r[i] && tail[j - i] == r[j];
      assert forall k | 0 < k < j - i :: tail[k] == r[i + k];
    }
    assert Collapsed(tail) == Collapsed(tail[j - i + 1..]);
    assert tail[j - i + 1..] == cut[i..];
    assert cut[..i] == r[..i];
  }

  /** When step i loops back to nothing later, it stays and the scan moves on to i + 1. */
  lemma KeepStep<K, V>(r: seq<Rule<K, V>>, i: nat)
    requires i < |r|
    requires forall k | i + 1 <= k < |r| :: r[i].keyA != r[k].keyB
    ensures r[..i] + Collapsed(r[i..]) == r[..i + 1] + Collapsed(r[i + 1..])
  {
    var tail := r[i..];
    assert forall k | 0 < k < |tail| :: tail[k] == r[i + k];
    assert LoopBack(tail).None?;
    assert tail[1..] == r[i + 1..];
    assert r[..i + 1] == r[..i] + [r[i]];
  }

  /** The nested `for` loops of `TryTranslation`, with `RemoveRange(i, j - i + 1)` and `i--`. */
  method Collapse<K(==), V>(steps: seq<Rule<K, V>>) returns (r: seq<Rule<K, V>>)
    ensures r == Collapsed(steps)
    ensures NoLoopBack(r)
  {
    r := steps;
    var i := 0;
    while i < |r|
      invariant 0 <= i <= |r|
      invariant r[..i] + Collapsed(r[i..]) == Collapsed(steps)
      decreases |r| - i
    {
      var j := i + 1;
      while j < |r| && r[i].keyA != r[j].keyB
        invariant i + 1 <= j <= |r|
        invariant forall k | i + 1 <= k < j :: r[i].keyA != r[k].keyB
      {
        j := j + 1;
      }
      if j < |r| {
        CutDetour(r, i, j);
        r := r[..i] + r[j + 1..];
      } else {
        KeepStep(r, i);
        i := i + 1;
      }
    }
    assert r[i..] == [];
  }
}
