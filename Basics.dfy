/** Values shared by every part of the game model: optional values, the
    outcome of a computation that consumes dice, player identities and the
    sequence operations the game's `List<Player>` code relies on. */
module Basics {

  /** A player of the roster. The game compares players by identity only. */
  type PlayerId = nat

  datatype Option<+T> = None | Some(value: T)

  /** How a dice-driven selection ends: with a value, by recursing forever on
      an empty candidate list, or because the supplied rolls ran out. */
  datatype Outcome<+T> = Done(value: T) | Stalled | OutOfRolls

  /** An outcome together with the rolls still unused afterwards. */
  datatype Rolled<+T> = Rolled(outcome: Outcome<T>, rest: seq<int>)

  predicate Distinct<T(==)>(s: seq<T>)
  {
    forall i, j :: 0 <= i < j < |s| ==> s[i] != s[j]
  }

  /** `s` read back to front. */
  function Reverse<T>(s: seq<T>): (r: seq<T>)
    ensures |r| == |s|
  {
    if |s| == 0 then [] else [s[|s| - 1]] + Reverse(s[..|s| - 1])
  }

  /** `List.Remove`: drops the first occurrence of `x`, if there is one. */
  function RemoveFirst<T(==)>(s: seq<T>, x: T): (r: seq<T>)
    ensures x in s ==> |r| == |s| - 1 && multiset(r) == multiset(s) - multiset{x}
    ensures x !in s ==> r == s
  {
    if |s| == 0 then []
    else
      assert s == [s[0]] + s[1..];
      if s[0] == x then s[1..] else [s[0]] + RemoveFirst(s[1..], x)
  }

  /** In a list without duplicates, removing an element is cutting out its
      one position. */
  lemma {:induction false} RemoveFirstAt<T>(s: seq<T>, k: nat)
    requires Distinct(s) && k < |s|
    ensures RemoveFirst(s, s[k]) == s[..k] + s[k + 1..]
  {
    if k == 0 {
      assert s[..k] + s[k + 1..] == s[1..];
    } else {
      DistinctTail(s);
      RemoveFirstAt(s[1..], k - 1);
      RemoveFirstStep(s, k);
    }
  }

  lemma RemoveFirstStep<T>(s: seq<T>, k: nat)
    requires 0 < k < |s| && s[0] != s[k]
    requires RemoveFirst(s[1..], s[k]) == s[1..][..k - 1] + s[1..][k..]
    ensures RemoveFirst(s, s[k]) == s[..k] + s[k + 1..]
  {
    assert s[1..][..k - 1] == s[1..k] && s[1..][k..] == s[k + 1..];
    assert s[..k] == [s[0]] + s[1..k];
  }

  lemma DistinctTail<T>(s: seq<T>)
    requires Distinct(s) && |s| > 0
    ensures Distinct(s[1..])
  {
    forall i, j | 0 <= i < j < |s| - 1 ensures s[1..][i] != s[1..][j] {
      assert s[1..][i] == s[i + 1] && s[1..][j] == s[j + 1];
    }
  }

  /** A rearrangement of a list without duplicates has none either. */
  lemma DistinctPermutation<T>(s: seq<T>, t: seq<T>)
    requires Distinct(s) && multiset(s) == multiset(t)
    ensures Distinct(t)
  {
    forall x | x in multiset(t) ensures multiset(t)[x] == 1 {
      DistinctCount(s, x);
    }
    forall i, j | 0 <= i < j < |t| ensures t[i] != t[j] {
      if t[i] == t[j] {
        TwoPositions(t, i, j);
        assert false;
      }
    }
  }

  lemma {:induction false} DistinctCount<T>(s: seq<T>, x: T)
    requires Distinct(s) && x in s
    ensures multiset(s)[x] == 1
  {
    assert s == [s[0]] + s[1..];
    if s[0] == x {
      assert x !in s[1..] by {
        forall i | 0 <= i < |s[1..]| ensures s[1..][i] != x { assert s[i + 1] != s[0]; }
      }
    } else {
      DistinctCount(s[1..], x);
    }
  }

  lemma {:induction false} TwoPositions<T>(t: seq<T>, i: nat, j: nat)
    requires i < j < |t| && t[i] == t[j]
    ensures multiset(t)[t[i]] >= 2
  {
    assert t == t[..i] + [t[i]] + t[i + 1..j] + [t[j]] + t[j + 1..];
  }
}
