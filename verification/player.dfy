/** The player's hand and flags (base/players/player.py).

    Choosing an action is left to the concrete player kinds, which are not part
    of this model; playing the chosen action needs the action protocol and is
    modelled in the `Games` module. */
module Players {

  /** The score that ends a turn: reaching it stops the player, passing it
      breaks the player. */
  const Limit: int := 21

  /** A hand of card ranks plus the two end-of-turn flags. */
  datatype Player = Player(hand: seq<int>, broken: bool, stopped: bool)

  /** The sum of a sequence of ranks. */
  function Sum(ranks: seq<int>): int
  {
    if |ranks| == 0 then 0 else ranks[0] + Sum(ranks[1..])
  }

  /** Adding a card to a hand adds its rank to the sum. */
  lemma {:induction false} SumAppend(ranks: seq<int>, card: int)
    ensures Sum(ranks + [card]) == Sum(ranks) + card
  {
    if |ranks| == 0 {
      assert ranks + [card] == [card];
    } else {
      assert (ranks + [card])[1..] == ranks[1..] + [card];
      SumAppend(ranks[1..], card);
    }
  }

  /** The score is the sum of the ranks of the cards in the hand; the order of
      the cards does not matter. */
  function Score(p: Player): (s: int)
    ensures |p.hand| == 0 ==> s == 0
    ensures |p.hand| > 0 ==> s == Sum(p.hand[..|p.hand| - 1]) + p.hand[|p.hand| - 1]
  {
    if |p.hand| == 0 then 0
    else
      var n := |p.hand|;
      assert p.hand == p.hand[..n - 1] + [p.hand[n - 1]];
      SumAppend(p.hand[..n - 1], p.hand[n - 1]);
      Sum(p.hand)
  }

  /** Summing is insensitive to the order of the ranks. */
  lemma {:induction false} SumIsOrderFree(a: seq<int>, b: seq<int>)
    requires multiset(a) == multiset(b)
    ensures Sum(a) == Sum(b)
    decreases |a|
  {
    if |a| == 0 {
      assert |b| == |multiset(b)| == 0;
    } else {
      var x := a[0];
      assert x in multiset(b);
      var i :| 0 <= i < |b| && b[i] == x;
      var rest := b[..i] + b[i + 1..];
      assert b == b[..i] + [x] + b[i + 1..];
      assert multiset(b) == multiset(b[..i]) + multiset{x} + multiset(b[i + 1..]);
      assert a == [x] + a[1..];
      assert multiset(a) == multiset{x} + multiset(a[1..]);
      assert multiset(rest) == multiset(b[..i]) + multiset(b[i + 1..]);
      assert multiset(a[1..]) == multiset(a) - multiset{x};
      assert multiset(rest) == multiset(b) - multiset{x};
      SumIsOrderFree(a[1..], rest);
      SumMovesFront(b[..i], x, b[i + 1..]);
    }
  }

  /** Moving one rank to the front of a sequence leaves its sum unchanged. */
  lemma {:induction false} SumMovesFront(u: seq<int>, x: int, v: seq<int>)
    ensures Sum(u + [x] + v) == x + Sum(u + v)
    decreases |u|
  {
    if |u| == 0 {
      assert u + [x] + v == [x] + v;
      assert u + v == v;
    } else {
      assert (u + [x] + v)[1..] == u[1..] + [x] + v;
      assert (u + v)[1..] == u[1..] + v;
      SumMovesFront(u[1..], x, v);
    }
  }

  /** A new player: empty hand, neither broken nor stopped. */
  function NewPlayer(): (p: Player)
    ensures |p.hand| == 0 && Score(p) == 0
    ensures !p.broken && !p.stopped
  {
    Player([], false, false)
  }

  /** Resetting empties the hand and clears both flags. */
  function Reset(p: Player): (q: Player)
    ensures q == NewPlayer()
    ensures NumCards(q) == 0 && Score(q) == 0
  {
    p.(hand := [], stopped := false, broken := false)
  }

  /** The number of cards in the hand. */
  function NumCards(p: Player): (n: nat)
    ensures n == |multiset(p.hand)|
    ensures n == 0 <==> p.hand == []
  {
    |p.hand|
  }

  /** A player whose turn is over: it stopped or it broke. */
  predicate Finished(p: Player)
  {
    p.stopped || p.broken
  }
}
