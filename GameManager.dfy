/** The game engine: the round counter and its stop rule, the end of a turn
    (elimination and passing the turn on), the drawing of the playing order
    and the choice of the winner.

    The engine's collaborators are represented by the state the engine relies
    on and nothing more: the die by the rolls it will still produce, the
    bank by a balance per player, the board by the owner of each cell, and
    the manager of the current players by the playing order of those still
    in the game together with the position of the player whose turn it is. */
module GameEngine {
  import opened Basics
  import opened TurnOrder

  /** The position after `i` in a rotation of `n` players, wrapping to the
      front; an empty rotation stays at 0. */
  function Next(i: nat, n: nat): (j: nat)
    ensures n > 0 ==> j < n
  {
    if i + 1 < n then i + 1 else 0
  }

  /** The position reached from `i` by passing the turn `k` times. */
  function Walk(i: nat, k: nat, n: nat): (j: nat)
    requires i < n
    ensures j < n
  {
    if k == 0 then i else Next(Walk(i, k - 1, n), n)
  }

  /** The board's owners after every cell of `p` is made available again. */
  function Released(owners: seq<Option<PlayerId>>, p: PlayerId): (r: seq<Option<PlayerId>>)
    ensures |r| == |owners|
    ensures forall i :: 0 <= i < |r| ==> r[i] == (if owners[i] == Some(p) then None else owners[i])
  {
    if |owners| == 0 then []
    else
      var n := |owners| - 1;
      Released(owners[..n], p) + [if owners[n] == Some(p) then None else owners[n]]
  }

  /** After the release, `p` owns no cell, every other owner keeps their
      cells, and releasing again changes nothing. */
  lemma ReleasedProperties(owners: seq<Option<PlayerId>>, p: PlayerId)
    ensures Some(p) !in Released(owners, p)
    ensures forall i :: 0 <= i < |owners| && owners[i] != Some(p) ==> Released(owners, p)[i] == owners[i]
    ensures Released(Released(owners, p), p) == Released(owners, p)
  {
  }

  /** Passing the turn right after the player at `k` left the rotation, with
      the position left on the player that followed them, reaches the second
      player after `k` in the old rotation. */
  lemma PassAfterRemoval(r: seq<PlayerId>, k: nat)
    requires 3 <= |r| && k < |r|
    ensures var rest := r[..k] + r[k + 1..];
            rest[Next(if k == |rest| then 0 else k, |rest|)] == r[Next(Next(k, |r|), |r|)]
  {
  }

  /** `ranking` holds exactly the players of `players`, by balance from the
      highest down. */
  ghost predicate IsRanking(ranking: seq<PlayerId>, players: seq<PlayerId>, balances: map<PlayerId, int>)
  {
    && multiset(ranking) == multiset(players)
    && (forall i :: 0 <= i < |ranking| ==> ranking[i] in balances)
    && (forall i, j :: 0 <= i < j < |ranking| ==> balances[ranking[i]] >= balances[ranking[j]])
  }

  /** The head of a ranking has the highest balance of all the players. */
  lemma RankingHeadIsRichest(ranking: seq<PlayerId>, players: seq<PlayerId>, balances: map<PlayerId, int>)
    requires IsRanking(ranking, players, balances) && |players| > 0
    ensures ranking[0] in players
    ensures forall q :: q in players ==> q in balances && balances[q] <= balances[ranking[0]]
  {
    assert |ranking| == |players| by {
      assert |multiset(ranking)| == |multiset(players)|;
    }
    assert ranking[0] in multiset(players);
    forall q | q in players ensures q in balances && balances[q] <= balances[ranking[0]] {
      assert q in multiset(ranking);
      var k :| 0 <= k < |ranking| && ranking[k] == q;
    }
  }

  /** Sorts `a` by balance, highest first (`List.Sort` with a comparison of
      the balances in reverse). */
  method SortByBalance(a: array<PlayerId>, balances: map<PlayerId, int>)
    requires forall k :: 0 <= k < a.Length ==> a[k] in balances
    modifies a
    ensures IsRanking(a[..], old(a[..]), balances)
  {
    var i := 0;
    while i < a.Length
      invariant 0 <= i <= a.Length
      invariant forall k :: 0 <= k < a.Length ==> a[k] in balances
      invariant forall k, l :: 0 <= k < l < i ==> balances[a[k]] >= balances[a[l]]
      invariant multiset(a[..]) == old(multiset(a[..]))
    {
      Sink(a, i, balances);
      i := i + 1;
    }
  }

  /** Every player of `s` has an account. */
  ghost predicate AllKnown(s: seq<PlayerId>, balances: map<PlayerId, int>)
  {
    forall k :: 0 <= k < |s| ==> s[k] in balances
  }

  /** During an insertion step: the first `i + 1` players are ranked except
      for the one at `j`, which is on its way to the front. */
  ghost predicate Sinking(s: seq<PlayerId>, i: nat, j: nat, balances: map<PlayerId, int>)
    requires AllKnown(s, balances) && j <= i < |s|
  {
    && (forall k, l :: 0 <= k < l <= i && l != j ==> balances[s[k]] >= balances[s[l]])
    && (0 < j < i ==> balances[s[j - 1]] >= balances[s[j + 1]])
  }

  /** Swapping the sinking player with a poorer predecessor keeps the step
      going one position further to the front. */
  lemma SinkStep(s: seq<PlayerId>, i: nat, j: nat, balances: map<PlayerId, int>)
    requires AllKnown(s, balances) && 0 < j <= i < |s|
    requires Sinking(s, i, j, balances) && balances[s[j - 1]] < balances[s[j]]
    ensures var t := s[j - 1 := s[j]][j := s[j - 1]];
            AllKnown(t, balances) && Sinking(t, i, j - 1, balances) && multiset(t) == multiset(s)
  {
  }

  /** An insertion step that stopped leaves the first `i + 1` players ranked. */
  lemma SinkStopped(s: seq<PlayerId>, i: nat, j: nat, balances: map<PlayerId, int>)
    requires AllKnown(s, balances) && j <= i < |s|
    requires Sinking(s, i, j, balances) && (j == 0 || balances[s[j - 1]] >= balances[s[j]])
    ensures forall k, l :: 0 <= k < l <= i ==> balances[s[k]] >= balances[s[l]]
  {
  }

  /** One insertion step: moves `a[i]` towards the front, past every player
      with a lower balance, so that the first `i + 1` players are ranked. */
  method Sink(a: array<PlayerId>, i: nat, balances: map<PlayerId, int>)
    requires i < a.Length
    requires forall k :: 0 <= k < a.Length ==> a[k] in balances
    requires forall k, l :: 0 <= k < l < i ==> balances[a[k]] >= balances[a[l]]
    modifies a
    ensures forall k :: 0 <= k < a.Length ==> a[k] in balances
    ensures forall k, l :: 0 <= k < l <= i ==> balances[a[k]] >= balances[a[l]]
    ensures multiset(a[..]) == old(multiset(a[..]))
  {
    var j: nat := i;
    assert AllKnown(a[..], balances) && Sinking(a[..], i, j, balances);
    while j > 0 && balances[a[j - 1]] < balances[a[j]]
      invariant j <= i
      invariant AllKnown(a[..], balances) && Sinking(a[..], i, j, balances)
      invariant multiset(a[..]) == old(multiset(a[..]))
    {
      SinkStep(a[..], i, j, balances);
      a[j - 1], a[j] := a[j], a[j - 1];
      j := j - 1;
    }
    SinkStopped(a[..], i, j, balances);
  }

  /** The position of the first occurrence of `p` in `s` (`List.IndexOf`). */
  method IndexOf(s: seq<PlayerId>, p: PlayerId) returns (i: nat)
    requires p in s
    ensures i < |s| && s[i] == p
    ensures forall j :: 0 <= j < i ==> s[j] != p
  {
    i := 0;
    while s[i] != p
      invariant i < |s| && p in s[i..]
      invariant forall j :: 0 <= j < i ==> s[j] != p
      decreases |s| - i
    {
      i := i + 1;
    }
  }

  /** Cutting one position out of a list without duplicates leaves a list
      without duplicates, holding only players of the original. */
  lemma CutKeepsDistinct(s: seq<PlayerId>, i: nat)
    requires Distinct(s) && i < |s|
    ensures Distinct(s[..i] + s[i + 1..])
    ensures forall q :: q in s[..i] + s[i + 1..] ==> q in s
  {
    var rest := s[..i] + s[i + 1..];
    forall a, b | 0 <= a < b < |rest| ensures rest[a] != rest[b] {
      var a', b' := if a < i then a else a + 1, if b < i then b else b + 1;
      assert rest[a] == s[a'] && rest[b] == s[b'];
    }
    forall q | q in rest ensures q in s {
      var m :| 0 <= m < |rest| && rest[m] == q;
      assert rest[m] == s[if m < i then m else m + 1];
    }
  }

  /** Passing the turn from position `start`, none of the first `steps - 1`
      players reached is `first` or `second`. */
  ghost predicate Avoids(r: seq<PlayerId>, start: nat, steps: nat, first: PlayerId, second: PlayerId)
    requires start < |r|
  {
    forall j :: 1 <= j < steps ==> r[Walk(start, j, |r|)] != first && r[Walk(start, j, |r|)] != second
  }

  lemma AvoidsStep(r: seq<PlayerId>, start: nat, steps: nat, first: PlayerId, second: PlayerId)
    requires start < |r| && Avoids(r, start, steps, first, second)
    requires r[Walk(start, steps, |r|)] != first && r[Walk(start, steps, |r|)] != second
    ensures Avoids(r, start, steps + 1, first, second)
  {
  }

  /** A drawn order holds each player of the roster once, so every player
      of the order has an account opened for the roster. */
  lemma OrderCoversRoster(roster: seq<PlayerId>, dice: seq<int>, startingBalance: int)
    requires Distinct(roster) && Order(roster, dice).outcome.Done?
    ensures var order := Order(roster, dice).outcome.value;
            Distinct(order) && multiset(order) == multiset(roster)
            && forall p :: p in order ==> p in (map q | q in roster :: startingBalance)
  {
    var order := Order(roster, dice).outcome.value;
    OrderIsPermutation(roster, dice);
    forall p | p in order ensures p in roster {
      assert p in multiset(roster);
    }
  }

  class GameManager {
    /** The rolls the die will still produce, in order. */
    var dice: seq<int>
    /** The players still in the game, in playing order. */
    var rotation: seq<PlayerId>
    /** The position in `rotation` of the player whose turn it is. */
    var current: nat
    /** The bank: each player's balance. */
    var balances: map<PlayerId, int>
    /** The board: the owner of each cell, if any. */
    var owners: seq<Option<PlayerId>>
    /** The number of turns played so far. */
    var round: int
    /** The number of turns after which the game stops. */
    var maxRounds: int

    ghost predicate Valid()
      reads this
    {
      && Distinct(rotation)
      && (rotation == [] ==> current == 0)
      && (rotation != [] ==> current < |rotation|)
      && (forall p :: p in rotation ==> p in balances)
    }

    constructor (rolls: seq<int>)
      ensures Valid()
      ensures dice == rolls && rotation == [] && current == 0 && balances == map[]
      ensures owners == [] && round == 0 && maxRounds == 0
    {
      dice, rotation, current, balances := rolls, [], 0, map[];
      owners, round, maxRounds := [], 0, 0;
    }

    /** The die: the next supplied roll, if any remain. */
    method Roll() returns (r: Option<int>)
      modifies this`dice
      ensures old(dice) == [] ==> r == None && dice == []
      ensures old(dice) != [] ==> r == Some(old(dice)[0]) && dice == old(dice)[1..]
    {
      if dice == [] {
        r := None;
      } else {
        r := Some(dice[0]);
        dice := dice[1..];
      }
    }

    /** One player drawn from `players` by the dice, passing again over the
      best list until it holds exactly one player. */
    method SelectBest(players: seq<PlayerId>) returns (o: Outcome<PlayerId>)
      modifies this`dice
      ensures Rolled(o, dice) == Select(players, old(dice))
      decreases |dice|
    {
      var best: seq<PlayerId> := [];
      var i := 0;
      while i < |players|
        invariant 0 <= i <= |players| && i <= |old(dice)|
        invariant dice == old(dice)[i..]
        invariant best == Tied(players[..i], old(dice)[..i])
      {
        var roll := Roll();
        if roll.None? {
          return OutOfRolls;
        }
        assert players[..i + 1][..i] == players[..i] && old(dice)[..i + 1][..i] == old(dice)[..i];
        if roll.value == Highest {
          best := best + [players[i]];
        } else if roll.value > Highest {
          best := [players[i]];
        }
        i := i + 1;
      }
      assert players[..i] == players;
      if |best| == 1 {
        o := Done(best[0]);
      } else if |best| == 0 {
        o := Stalled;
      } else {
        o := SelectBest(best);
      }
    }

    /** The playing order: the drawn players, in the order they were drawn. */
    method DecideOrder(players: seq<PlayerId>) returns (o: Outcome<seq<PlayerId>>)
      modifies this`dice
      ensures Rolled(o, dice) == Order(players, old(dice))
    {
      var chosen: seq<PlayerId> := [];
      var remaining := players;
      while |remaining| > 0
        invariant OrderFrom(remaining, chosen, dice) == Order(players, old(dice))
        decreases |remaining|
      {
        var pick := SelectBest(remaining);
        match pick
        case Done(best) =>
          remaining := RemoveFirst(remaining, best);
          chosen := chosen + [best];
        case Stalled =>
          return Stalled;
        case OutOfRolls =>
          return OutOfRolls;
      }
      o := Done(chosen);
    }

    /** The setup of a game: the playing order is drawn, every cell starts
        without owner and every player with the same balance. */
    method Start(roster: seq<PlayerId>, cellCount: nat, startingBalance: int, rounds: int) returns (ok: bool)
      requires Distinct(roster)
      modifies this
      ensures dice == Order(roster, old(dice)).rest
      ensures ok <==> Order(roster, old(dice)).outcome.Done?
      ensures round == 0
      ensures ok ==> Valid() && rotation == Order(roster, old(dice)).outcome.value && current == 0
      ensures ok ==> multiset(rotation) == multiset(roster)
      ensures ok ==> |owners| == cellCount && forall i :: 0 <= i < cellCount ==> owners[i] == None
      ensures ok ==> balances == map p | p in roster :: startingBalance
      ensures ok ==> maxRounds == rounds
      ensures !ok ==> rotation == old(rotation) && current == old(current)
      ensures !ok ==> owners == old(owners) && balances == old(balances) && maxRounds == old(maxRounds)
    {
      round := 0;
      var order := DecideOrder(roster);
      if !order.Done? {
        return false;
      }
      OrderCoversRoster(roster, old(dice), startingBalance);
      rotation, current := order.value, 0;
      owners := seq(cellCount, _ => None);
      balances := map p | p in roster :: startingBalance;
      maxRounds := rounds;
      ok := true;
    }

    /** The stop rule: a single player is left or the last turn was played. */
    predicate ShouldEnd()
      reads this
      ensures |rotation| == 1 ==> ShouldEnd()
      ensures round >= maxRounds ==> ShouldEnd()
      ensures !ShouldEnd() ==> maxRounds - round >= 1
    {
      |rotation| == 1 || round >= maxRounds
    }

    /** The player whose turn it is, if any player is left. */
    method CurrentPlayer() returns (p: Option<PlayerId>)
      requires Valid()
      ensures p.None? <==> rotation == []
      ensures p.Some? ==> p.value == rotation[current]
    {
      p := if rotation == [] then None else Some(rotation[current]);
    }

    /** One turn: the counter goes up and the current player moves. */
    method PlayTurn() returns (player: Option<PlayerId>)
      requires Valid()
      modifies this`round
      ensures round == old(round) + 1
      ensures player.None? <==> rotation == []
      ensures player.Some? ==> player.value == rotation[current]
    {
      round := round + 1;
      player := CurrentPlayer();
    }

    /** Plays turn after turn until the stop rule holds. Before every turn the
        caller's hook runs; `hookRounds` lists the turn count it saw each time. */
    method RunToEnd() returns (hookRounds: seq<int>)
      requires Valid()
      modifies this`round
      ensures ShouldEnd()
      ensures old(ShouldEnd()) ==> round == old(round)
      ensures !old(ShouldEnd()) ==> round == maxRounds
      ensures |hookRounds| == round - old(round)
      ensures forall i :: 0 <= i < |hookRounds| ==> hookRounds[i] == old(round) + i
    {
      hookRounds := [];
      while !ShouldEnd()
        invariant old(round) <= round
        invariant !old(ShouldEnd()) ==> round <= maxRounds
        invariant old(ShouldEnd()) ==> round == old(round)
        invariant |hookRounds| == round - old(round)
        invariant forall i :: 0 <= i < |hookRounds| ==> hookRounds[i] == old(round) + i
        decreases maxRounds - round
      {
        hookRounds := hookRounds + [round];
        var _ := PlayTurn();
      }
    }

    /** Passes the turn to the next player of the rotation and returns them. */
    method PassTurn() returns (p: Option<PlayerId>)
      requires Valid()
      modifies this`current
      ensures Valid()
      ensures current == Next(old(current), |rotation|)
      ensures p.None? <==> rotation == []
      ensures p.Some? ==> p.value == rotation[current]
    {
      current := Next(current, |rotation|);
      p := CurrentPlayer();
    }

    /** Takes `p` out of the rotation. When it was `p`'s turn, the turn
        moves to the player after `p`. */
    method RemovePlayer(p: PlayerId) returns (ghost k: nat)
      requires Valid() && p in rotation
      modifies this`rotation, this`current
      ensures Valid()
      ensures k < |old(rotation)| && old(rotation)[k] == p
      ensures rotation == old(rotation)[..k] + old(rotation)[k + 1..]
      ensures rotation == RemoveFirst(old(rotation), p)
      ensures k < old(current) ==> current == old(current) - 1
      ensures k == old(current) ==> current == (if k == |rotation| then 0 else k)
      ensures k > old(current) ==> current == old(current)
    {
      var i := IndexOf(rotation, p);
      k := i;
      RemoveFirstAt(rotation, i);
      var rest := rotation[..i] + rotation[i + 1..];
      CutKeepsDistinct(rotation, i);
      if i < current {
        current := current - 1;
      } else if i == current && i == |rest| {
        current := 0;
      }
      rotation := rest;
    }

    /** Eliminates `p`: every cell of `p` becomes available, then `p` leaves
        the rotation. */
    method Eliminate(p: PlayerId) returns (ghost k: nat)
      requires Valid() && p in rotation
      modifies this`owners, this`rotation, this`current
      ensures Valid()
      ensures owners == Released(old(owners), p)
      ensures k < |old(rotation)| && old(rotation)[k] == p
      ensures rotation == old(rotation)[..k] + old(rotation)[k + 1..]
      ensures k < old(current) ==> current == old(current) - 1
      ensures k == old(current) ==> current == (if k == |rotation| then 0 else k)
      ensures k > old(current) ==> current == old(current)
    {
      owners := Released(owners, p);
      k := RemovePlayer(p);
    }

    /** The end of a turn: the current player leaves the game if their
        balance is negative, the turn passes on and the next turn starts at
        once, without consulting the stop rule. */
    method EndTurn() returns (next: Option<PlayerId>)
      requires Valid() && rotation != []
      modifies this`owners, this`rotation, this`current, this`round
      ensures Valid()
      ensures round == old(round) + 1
      ensures old(balances[rotation[current]]) < 0 ==>
                rotation == old(rotation[..current] + rotation[current + 1..])
                && owners == Released(old(owners), old(rotation[current]))
      ensures old(balances[rotation[current]]) >= 0 ==>
                rotation == old(rotation) && owners == old(owners)
                && rotation[current] == old(rotation[Next(current, |rotation|)])
      ensures old(balances[rotation[current]]) < 0 && old(|rotation|) >= 3 ==>
                rotation[current] == old(rotation[Next(Next(current, |rotation|), |rotation|)])
      ensures next.None? <==> rotation == []
      ensures next.Some? ==> next.value == rotation[current]
    {
      var p := rotation[current];
      if balances[p] < 0 {  // the bank's negative-balance test
        ghost var before, k0 := rotation, current;
        ghost var k := Eliminate(p);
        assert k == k0;
        var _ := PassTurn();
        if |before| >= 3 {
          PassAfterRemoval(before, k0);
        }
      } else {
        var _ := PassTurn();
      }
      next := PlayTurn();
    }

    /** Passes the turn at least once, and on until it reaches `first` or
        `second`; returns the player reached. */
    method PassUntilOneOf(first: PlayerId, second: PlayerId) returns (reached: PlayerId, ghost steps: nat)
      requires Valid() && first in rotation
      modifies this`current
      ensures Valid()
      ensures 1 <= steps <= |rotation| && current == Walk(old(current), steps, |rotation|)
      ensures reached == rotation[current] && (reached == first || reached == second)
      ensures Avoids(rotation, old(current), steps, first, second)
    {
      var n, r, start := |rotation|, rotation, current;
      ghost var target :| 0 <= target < n && r[target] == first;
      var c := Next(start, n);
      steps := 1;
      ghost var d: nat := if target >= c then target - c else target + n - c;
      while r[c] != first && r[c] != second
        invariant c < n && 1 <= steps && steps + d <= n
        invariant c == Walk(start, steps, n)
        invariant Avoids(r, start, steps, first, second)
        invariant d < n && target == (if c + d < n then c + d else c + d - n)
        decreases d
      {
        AvoidsStep(r, start, steps, first, second);
        c := Next(c, n);
        steps := steps + 1;
        d := d - 1;
      }
      current := c;
      reached := r[c];
    }

    /** The winner: the richest player left; when the two richest of the
        ranking have equal balances, the turn is passed on until it reaches
        one of them, and that player wins. */
    method GetWinner() returns (winner: Option<PlayerId>, ghost ranking: seq<PlayerId>, ghost steps: nat)
      requires Valid()
      modifies this`current
      ensures Valid()
      ensures winner.None? <==> rotation == []
      ensures IsRanking(ranking, rotation, balances) && |ranking| == |rotation|
      ensures winner.Some? ==> winner.value in rotation
      ensures winner.Some? ==> forall q :: q in rotation ==> balances[q] <= balances[winner.value]
      ensures |rotation| == 1 ==> winner == Some(rotation[0]) && current == old(current)
      ensures |rotation| >= 2 && balances[ranking[0]] != balances[ranking[1]] ==>
                winner == Some(ranking[0]) && current == old(current)
      ensures |rotation| >= 2 && balances[ranking[0]] == balances[ranking[1]] ==>
                && 1 <= steps <= |rotation|
                && current == Walk(old(current), steps, |rotation|)
                && winner == Some(rotation[current])
                && (rotation[current] == ranking[0] || rotation[current] == ranking[1])
                && Avoids(rotation, old(current), steps, ranking[0], ranking[1])
    {
      ranking, steps := rotation, 0;
      var n := |rotation|;
      if n == 0 {
        return None, ranking, steps;
      }
      if n == 1 {
        return Some(rotation[0]), ranking, steps;
      }
      var survivors := rotation;
      var a := new PlayerId[n](k requires 0 <= k < n => survivors[k]);
      assert a[..] == survivors;
      SortByBalance(a, balances);
      ranking := a[..];
      RankingHeadIsRichest(ranking, rotation, balances);
      if balances[a[0]] == balances[a[1]] {
        var reached;
        reached, steps := PassUntilOneOf(a[0], a[1]);
        winner := Some(reached);
      } else {
        winner := Some(a[0]);
      }
    }
  }
}
