/** The rules by which the game decides who plays first, second, ...: every
    candidate rolls the die once per pass, and the pass keeps a list of
    "best" candidates that is recursed on until it holds exactly one player.

    The selection compares each roll with a running best that starts at 0 and
    is never raised, so a roll above 0 restarts the list with the roller, a
    roll of exactly 0 joins the list, and a negative roll is ignored. These
    functions state that behaviour; `GameEngine.GameManager` runs it. */
module TurnOrder {
  import opened Basics

  /** The value every roll is compared with during a pass. */
  const Highest := 0

  /** The best list after one more candidate `p` rolled `roll`. */
  function Consider(best: seq<PlayerId>, p: PlayerId, roll: int): (r: seq<PlayerId>)
    ensures forall q :: q in r ==> q in best || q == p
    ensures roll >= Highest ==> |r| >= 1 && r[|r| - 1] == p
    ensures roll > Highest ==> |r| == 1
    ensures roll < Highest ==> r == best
  {
    if roll == Highest then best + [p]
    else if roll > Highest then [p]
    else best
  }

  /** The best list after one pass in which `players[i]` rolled `rolls[i]`.
      When nobody rolls above 0 it is exactly the candidates who rolled 0,
      in pass order. */
  function Tied(players: seq<PlayerId>, rolls: seq<int>): (r: seq<PlayerId>)
    requires |rolls| == |players|
    ensures |r| <= |players|
    ensures forall p :: p in r ==> p in players
    ensures NonePositive(rolls) ==> r == ZeroRollers(players, rolls)
  {
    if |players| == 0 then []
    else
      var n := |players| - 1;
      assert NonePositive(rolls) ==> NonePositive(rolls[..n]);
      Consider(Tied(players[..n], rolls[..n]), players[n], rolls[n])
  }

  /** The candidates of a pass who rolled exactly 0, in pass order. */
  function ZeroRollers(players: seq<PlayerId>, rolls: seq<int>): seq<PlayerId>
    requires |rolls| == |players|
  {
    if |players| == 0 then []
    else
      var n := |players| - 1;
      ZeroRollers(players[..n], rolls[..n]) + (if rolls[n] == Highest then [players[n]] else [])
  }

  predicate NonePositive(rolls: seq<int>)
  {
    forall i :: 0 <= i < |rolls| ==> rolls[i] <= Highest
  }

  /** One selection: a pass over `players` using the first |players| rolls
      of `dice`, then a new pass over the best list unless it holds exactly
      one player. An empty best list would be passed over forever. */
  function Select(players: seq<PlayerId>, dice: seq<int>): (r: Rolled<PlayerId>)
    ensures r.outcome.Done? ==> r.outcome.value in players
    ensures |r.rest| <= |dice|
    decreases |dice|
  {
    if |dice| < |players| then Rolled(OutOfRolls, [])
    else
      var best := Tied(players, dice[..|players|]);
      var rest := dice[|players|..];
      if |best| == 1 then Rolled(Done(best[0]), rest)
      else if |best| == 0 then Rolled(Stalled, rest)
      else Select(best, rest)
  }

  /** The order loop from the state where `chosen` are already placed and
      `remaining` are still to be placed. */
  function OrderFrom(remaining: seq<PlayerId>, chosen: seq<PlayerId>, dice: seq<int>): (r: Rolled<seq<PlayerId>>)
    ensures r.outcome.Done? ==> |r.outcome.value| == |chosen| + |remaining|
    ensures r.outcome.Done? ==> r.outcome.value[..|chosen|] == chosen
    ensures |r.rest| <= |dice|
    decreases |remaining|
  {
    if |remaining| == 0 then Rolled(Done(chosen), dice)
    else
      var pick := Select(remaining, dice);
      match pick.outcome
      case Done(best) => OrderFrom(RemoveFirst(remaining, best), chosen + [best], pick.rest)
      case Stalled => Rolled(Stalled, pick.rest)
      case OutOfRolls => Rolled(OutOfRolls, pick.rest)
  }

  /** The playing order drawn for `players` with the supplied rolls. */
  function Order(players: seq<PlayerId>, dice: seq<int>): (r: Rolled<seq<PlayerId>>)
    ensures r.outcome.Done? ==> |r.outcome.value| == |players|
    ensures |r.rest| <= |dice|
  {
    OrderFrom(players, [], dice)
  }

  /** Number of rolls one order drawing uses when every pass has a single winner. */
  function Triangle(n: nat): nat
  {
    if n == 0 then 0 else n + Triangle(n - 1)
  }

  predicate AllPositive(rolls: seq<int>)
  {
    forall i :: 0 <= i < |rolls| ==> rolls[i] > Highest
  }

  // ---------------------------------------------------------------------
  // Properties of one pass

  /** A pass ends with nobody in the best list exactly when every roll of the
      pass was negative. */
  lemma {:induction false} TiedEmptyIffAllNegative(players: seq<PlayerId>, rolls: seq<int>)
    requires |rolls| == |players|
    ensures Tied(players, rolls) == [] <==> forall i :: 0 <= i < |rolls| ==> rolls[i] < Highest
  {
    if |players| > 0 {
      var n := |players| - 1;
      TiedEmptyIffAllNegative(players[..n], rolls[..n]);
      assert forall i :: 0 <= i < n ==> rolls[..n][i] == rolls[i];
    }
  }

  /** The last candidate who rolls above 0 heads the best list, and the
      candidates after them who rolled exactly 0 follow, in pass order. */
  lemma {:induction false} TiedAfterPositive(players: seq<PlayerId>, rolls: seq<int>, k: nat)
    requires |rolls| == |players| && k < |players| && rolls[k] > Highest
    requires forall i :: k < i < |rolls| ==> rolls[i] <= Highest
    ensures Tied(players, rolls) == [players[k]] + ZeroRollers(players[k + 1..], rolls[k + 1..])
    ensures |Tied(players, rolls)| >= 1 && Tied(players, rolls)[0] == players[k]
  {
    var n := |players| - 1;
    if k < n {
      var p', r' := players[..n], rolls[..n];
      assert r'[k] == rolls[k];
      assert forall i :: k < i < |r'| ==> r'[i] == rolls[i];
      assert p'[k + 1..] == players[k + 1..n] && r'[k + 1..] == rolls[k + 1..n];
      var zeros := ZeroRollers(players[k + 1..n], rolls[k + 1..n]);
      var last := if rolls[n] == Highest then [players[n]] else [];
      calc {
        Tied(players, rolls);
        Consider(Tied(p', r'), players[n], rolls[n]);
      == { TiedAfterPositive(p', r', k); }
        Consider([players[k]] + zeros, players[n], rolls[n]);
      == { assert [players[k]] + zeros + [players[n]] == [players[k]] + (zeros + [players[n]]); }
        [players[k]] + (zeros + last);
      == { ZeroRollersLast(players, rolls, k); }
        [players[k]] + ZeroRollers(players[k + 1..], rolls[k + 1..]);
      }
    } else {
      var none: seq<PlayerId> := [];
      assert players[k + 1..] == none;
    }
  }

  /** Splitting off the last candidate of the zero rollers after position `k`. */
  lemma ZeroRollersLast(players: seq<PlayerId>, rolls: seq<int>, k: nat)
    requires |rolls| == |players| && k + 1 < |players|
    ensures ZeroRollers(players[k + 1..], rolls[k + 1..])
         == ZeroRollers(players[k + 1..|players| - 1], rolls[k + 1..|players| - 1])
          + (if rolls[|players| - 1] == Highest then [players[|players| - 1]] else [])
  {
    var n := |players| - 1;
    var q, s := players[k + 1..], rolls[k + 1..];
    assert q[..|q| - 1] == players[k + 1..n] && s[..|s| - 1] == rolls[k + 1..n];
  }

  /** A pass in which every candidate rolls 0 keeps them all, in order. */
  lemma {:induction false} TiedAllZero(players: seq<PlayerId>, rolls: seq<int>)
    requires |rolls| == |players|
    requires forall i :: 0 <= i < |rolls| ==> rolls[i] == Highest
    ensures Tied(players, rolls) == players
  {
    if |players| > 0 {
      var n := |players| - 1;
      var p', r' := players[..n], rolls[..n];
      assert forall i :: 0 <= i < n ==> r'[i] == rolls[i];
      TiedAllZero(p', r');
      calc {
        Tied(players, rolls);
        Consider(Tied(p', r'), players[n], rolls[n]);
        p' + [players[n]];
        { assert p' + [players[n]] == players; }
        players;
      }
    }
  }

  // ---------------------------------------------------------------------
  // Properties of one selection

  /** With every roll of the pass above 0, the last candidate is chosen
      without a second pass. */
  lemma SelectAllPositive(players: seq<PlayerId>, dice: seq<int>)
    requires |players| >= 1 && |dice| >= |players| && AllPositive(dice[..|players|])
    ensures Select(players, dice) == Rolled(Done(players[|players| - 1]), dice[|players|..])
  {
    var n := |players|;
    TiedAfterPositive(players, dice[..n], n - 1);
  }

  /** A non-empty pool whose pass rolls are all negative is never resolved. */
  lemma SelectAllNegative(players: seq<PlayerId>, dice: seq<int>)
    requires |players| >= 1 && |dice| >= |players|
    requires forall i :: 0 <= i < |players| ==> dice[i] < Highest
    ensures Select(players, dice).outcome == Stalled
  {
    TiedEmptyIffAllNegative(players, dice[..|players|]);
  }

  /** When every roll is 0, each pass keeps the whole list of two or more
      candidates, so the drawing is repeated until the rolls run out and no
      player is ever drawn. */
  lemma {:induction false} SelectAllZero(players: seq<PlayerId>, dice: seq<int>)
    requires |players| >= 2
    requires forall i :: 0 <= i < |dice| ==> dice[i] == Highest
    ensures Select(players, dice).outcome == OutOfRolls
    decreases |dice|
  {
    var n := |players|;
    if |dice| >= n {
      var pass, rest := dice[..n], dice[n..];
      assert forall i :: 0 <= i < n ==> pass[i] == dice[i];
      TiedAllZero(players, pass);
      assert forall i :: 0 <= i < |rest| ==> rest[i] == dice[n + i];
      SelectAllZero(players, rest);
    }
  }

  // ---------------------------------------------------------------------
  // Properties of the order

  /** The order loop moves players from `remaining` to `chosen`, one at a
      time, without losing or duplicating any. */
  lemma {:induction false} OrderFromPermutes(remaining: seq<PlayerId>, chosen: seq<PlayerId>, dice: seq<int>)
    requires OrderFrom(remaining, chosen, dice).outcome.Done?
    ensures multiset(OrderFrom(remaining, chosen, dice).outcome.value) == multiset(chosen) + multiset(remaining)
    decreases |remaining|
  {
    if |remaining| > 0 {
      var pick := Select(remaining, dice);
      var best := pick.outcome.value;
      OrderFromPermutes(RemoveFirst(remaining, best), chosen + [best], pick.rest);
    }
  }

  /** A completed order is a permutation of the roster; a roster without
      duplicates yields an order without duplicates. */
  lemma OrderIsPermutation(players: seq<PlayerId>, dice: seq<int>)
    requires Order(players, dice).outcome.Done?
    ensures multiset(Order(players, dice).outcome.value) == multiset(players)
    ensures Distinct(players) ==> Distinct(Order(players, dice).outcome.value)
  {
    OrderFromPermutes(players, [], dice);
    if Distinct(players) {
      DistinctPermutation(players, Order(players, dice).outcome.value);
    }
  }

  /** With only rolls above 0, every pass picks the last remaining player,
      so the remaining players are appended back to front. */
  lemma {:induction false} OrderFromAllPositive(remaining: seq<PlayerId>, chosen: seq<PlayerId>, dice: seq<int>)
    requires Distinct(remaining) && |dice| >= Triangle(|remaining|) && AllPositive(dice)
    ensures OrderFrom(remaining, chosen, dice)
         == Rolled(Done(chosen + Reverse(remaining)), dice[Triangle(|remaining|)..])
    decreases |remaining|
  {
    var n := |remaining|;
    if n == 0 {
      EmptyReverse(remaining, chosen, dice);
    } else {
      var last, front, rest := remaining[n - 1], remaining[..n - 1], dice[n..];
      AfterPick(remaining, dice);
      calc {
        OrderFrom(remaining, chosen, dice);
      == { PickLast(remaining, chosen, dice); }
        OrderFrom(front, chosen + [last], rest);
      == { OrderFromAllPositive(front, chosen + [last], rest); }
        Rolled(Done(chosen + [last] + Reverse(front)), rest[Triangle(n - 1)..]);
      == { ReverseFacts(remaining, chosen, dice, n); }
        Rolled(Done(chosen + Reverse(remaining)), dice[Triangle(n)..]);
      }
    }
  }

  lemma EmptyReverse(remaining: seq<PlayerId>, chosen: seq<PlayerId>, dice: seq<int>)
    requires remaining == []
    ensures OrderFrom(remaining, chosen, dice)
         == Rolled(Done(chosen + Reverse(remaining)), dice[Triangle(|remaining|)..])
  {
    assert chosen + Reverse(remaining) == chosen && dice[Triangle(0)..] == dice;
  }

  lemma AfterPick(remaining: seq<PlayerId>, dice: seq<int>)
    requires Distinct(remaining) && |dice| >= Triangle(|remaining|) && AllPositive(dice) && |remaining| > 0
    ensures var n := |remaining|;
            Distinct(remaining[..n - 1]) && AllPositive(dice[n..]) && |dice[n..]| >= Triangle(n - 1)
  {
    var n := |remaining|;
    forall i | 0 <= i < |dice[n..]| ensures dice[n..][i] > Highest { assert dice[n..][i] == dice[n + i]; }
  }

  lemma ReverseFacts(remaining: seq<PlayerId>, chosen: seq<PlayerId>, dice: seq<int>, n: nat)
    requires 0 < n == |remaining| && |dice| >= Triangle(n)
    ensures dice[n..][Triangle(n - 1)..] == dice[Triangle(n)..]
    ensures chosen + [remaining[n - 1]] + Reverse(remaining[..n - 1]) == chosen + Reverse(remaining)
  {
  }

  /** One step of the order loop when every roll is above 0. */
  lemma PickLast(remaining: seq<PlayerId>, chosen: seq<PlayerId>, dice: seq<int>)
    requires Distinct(remaining) && 0 < |remaining| <= |dice| && AllPositive(dice)
    ensures OrderFrom(remaining, chosen, dice)
         == OrderFrom(remaining[..|remaining| - 1], chosen + [remaining[|remaining| - 1]], dice[|remaining|..])
  {
    var n := |remaining|;
    assert AllPositive(dice[..n]);
    SelectAllPositive(remaining, dice);
    RemoveFirstAt(remaining, n - 1);
    assert remaining[..n - 1] + remaining[n..] == remaining[..n - 1];
  }

  /** With only rolls above 0 and enough of them, the order is the roster
      reversed. */
  lemma OrderAllPositiveIsReverse(players: seq<PlayerId>, dice: seq<int>)
    requires Distinct(players) && |dice| >= Triangle(|players|) && AllPositive(dice)
    ensures Order(players, dice) == Rolled(Done(Reverse(players)), dice[Triangle(|players|)..])
  {
    var none: seq<PlayerId> := [];
    assert none + Reverse(players) == Reverse(players);
    OrderFromAllPositive(players, none, dice);
  }
}
