/** The action protocol (base/actions/action.py) and its two variants:
    drawing a card (base/actions/request_card_action.py) and standing
    (base/actions/stop_action.py).

    The player, the deck and the phase are values: executing an action returns
    the updated player and deck, the executed action and the phase the game
    moves to, instead of mutating shared objects. */
module Actions {
  import opened Results
  import opened GamePhases
  import opened Decks
  import opened Players

  /** The closed set of action variants. */
  datatype Kind = RequestCard | Stop

  /** An action value: its variant and whether it has been executed. */
  datatype Action = Action(kind: Kind, executed: bool)

  /** What a successful execution produces. */
  datatype Executed = Executed(action: Action, player: Player, deck: Deck, phase: Phase)

  /** A freshly constructed action has not been executed. */
  function NewAction(kind: Kind): (a: Action)
    ensures a.kind == kind && !a.executed
  {
    Action(kind, false)
  }

  // ---------------------------------------------------------------------------
  // Identity: equality, inequality and hashing by variant and key
  // ---------------------------------------------------------------------------

  /** The fields that take part in equality and hashing. Neither variant has a
      parameter, so the key is the unit value for both. */
  function Key(a: Action): ()
  {
    ()
  }

  /** Two actions are equal when they are of the same variant and have equal
      keys; whether either was executed plays no part. */
  function Equal(a: Action, b: Action): (eq: bool)
    ensures eq <==> a.kind == b.kind
  {
    a.kind == b.kind && Key(a) == Key(b)
  }

  /** Inequality is the negation of equality. */
  function NotEqual(a: Action, b: Action): (ne: bool)
    ensures ne <==> a.kind != b.kind
  {
    !Equal(a, b)
  }

  /** The hash of an action is computed from its key alone. The concrete value
      the runtime assigns to the hash of the key is immaterial; the model fixes
      one number per key. */
  function Hash(a: Action): (h: int)
    ensures h == KeyHash(())
  {
    KeyHash(Key(a))
  }

  function KeyHash(k: ()): int
  {
    0
  }

  lemma EqualityIsByVariant(a: Action, b: Action)
    ensures Equal(a, b) <==> a.kind == b.kind
    ensures Equal(a, b) <==> Equal(a.(executed := !a.executed), b)
    ensures NotEqual(a, b) <==> !Equal(a, b)
  {
  }

  /** Equality is an equivalence relation, so it can key a lookup table. */
  lemma EqualityIsEquivalence(a: Action, b: Action, c: Action)
    ensures Equal(a, a)
    ensures Equal(a, b) ==> Equal(b, a)
    ensures Equal(a, b) && Equal(b, c) ==> Equal(a, c)
  {
  }

  /** Equal actions hash equally. */
  lemma EqualActionsHashEqually(a: Action, b: Action)
    requires Equal(a, b)
    ensures Hash(a) == Hash(b)
  {
  }

  // ---------------------------------------------------------------------------
  // The per-variant steps: validate, execute, target phase, reward
  // ---------------------------------------------------------------------------

  /** Whether an action of the given variant may be played. Both variants
      demand the player phase and a player that is not broken. Drawing is still
      allowed when the player has stopped without breaking: the original only
      logs that case. The deck is consulted by neither variant. */
  function Validate(kind: Kind, p: Player, phase: Phase): (ok: bool)
    ensures ok <==> phase == PlayerPhase && !p.broken
  {
    match kind
    case RequestCard =>
      if phase != PlayerPhase then false
      else if p.broken then false
      else if p.stopped then true  // only logged, not refused
      else true
    case Stop =>
      if phase != PlayerPhase then false
      else if p.broken then false
      else true
  }

  /** The draw's quirk: a player that has stopped but is not broken may still
      draw in the player phase, whatever the score. */
  lemma StoppedPlayerMayDraw(p: Player)
    requires p.stopped && !p.broken
    ensures Validate(RequestCard, p, PlayerPhase)
  {
  }

  /** The state change of an action, without the protocol's guards. Drawing
      deals one card into the hand, stops the player at exactly the limit and
      breaks the player above it; standing stops the player. */
  function Apply(kind: Kind, p: Player, deck: Deck): (r: Result<(Player, Deck)>)
    ensures r.Err? <==> kind == RequestCard && |deck| == 0
    ensures r.Err? ==> r.error == EmptyDeck
    ensures r.Ok? && kind == RequestCard ==>
      var (q, rest) := r.value;
      && q.hand == p.hand + [deck[0]] && rest == deck[1..]
      && q.stopped == (p.stopped || Score(q) == Limit)
      && q.broken == (p.broken || Score(q) > Limit)
    ensures r.Ok? && kind == Stop ==> r.value == (p.(stopped := true), deck)
  {
    match kind
    case RequestCard =>
      var (card, rest) :- Deal(deck);
      var drawn := p.(hand := p.hand + [card]);
      if Score(drawn) == Limit then Ok((drawn.(stopped := true), rest))
      else if Score(drawn) > Limit then Ok((drawn.(broken := true), rest))
      else Ok((drawn, rest))
    case Stop =>
      Ok((p.(stopped := true), deck))
  }

  /** The phase the game moves to, computed from the state after execution. */
  function TargetPhase(kind: Kind, p: Player): (ph: Phase)
    ensures ph == HousePhase <==> kind == Stop || Score(p) == Limit || p.broken
  {
    match kind
    case RequestCard =>
      if Score(p) == Limit then HousePhase
      else if p.broken then HousePhase
      else PlayerPhase
    case Stop =>
      HousePhase
  }

  /** The reward of an executed action: nothing for drawing, one for standing.
      (The protocol's default of zero is overridden by both variants.) */
  function Reward(kind: Kind): (rw: int)
    ensures 0 <= rw <= 1
    ensures rw == 1 <==> kind == Stop
  {
    match kind
    case RequestCard => 0
    case Stop => 1
  }

  // ---------------------------------------------------------------------------
  // The shared protocol
  // ---------------------------------------------------------------------------

  /** Executes an action: refuse a second execution, refuse an action that does
      not validate, apply the variant's effect, mark the action executed and
      report the target phase of the resulting state. The phase passed in is
      read, not changed; the caller installs the returned phase. */
  function Execute(a: Action, p: Player, deck: Deck, phase: Phase): (r: Result<Executed>)
    ensures a.executed ==> r == Err(DoubleExecution)
    ensures !a.executed && !Validate(a.kind, p, phase) ==> r == Err(InvalidAction)
    ensures r.Ok? <==> !a.executed && Validate(a.kind, p, phase) && (a.kind == RequestCard ==> |deck| > 0)
    ensures r.Err? && !a.executed && Validate(a.kind, p, phase) ==> r.error == EmptyDeck
    ensures r.Ok? ==> r.value.action == a.(executed := true) && Equal(r.value.action, a)
    ensures r.Ok? ==> Apply(a.kind, p, deck) == Ok((r.value.player, r.value.deck))
    ensures r.Ok? ==> r.value.phase == TargetPhase(a.kind, r.value.player)
    ensures r.Ok? ==> Finished(r.value.player)
                      || (a.kind == RequestCard && r.value.player.broken == p.broken
                          && r.value.player.stopped == p.stopped)
  {
    if a.executed then Err(DoubleExecution)
    else if !Validate(a.kind, p, phase) then Err(InvalidAction)
    else
      var (p', deck') :- Apply(a.kind, p, deck);
      Ok(Executed(a.(executed := true), p', deck', TargetPhase(a.kind, p')))
  }

  /** Drawing a card: exactly one card moves from the deck to the end of the
      hand; the flags follow the new score; the game moves to the house phase
      exactly when the limit was reached or the player broke. */
  lemma {:induction false} RequestCardEffect(p: Player, deck: Deck, phase: Phase)
    requires Validate(RequestCard, p, phase) && |deck| > 0
    ensures var r := Execute(NewAction(RequestCard), p, deck, phase);
      && r.Ok?
      && var e := r.value;
      && e.player.hand == p.hand + [deck[0]]
      && NumCards(e.player) == NumCards(p) + 1
      && e.deck == deck[1..]
      && multiset(deck) == multiset(e.deck) + multiset{deck[0]}
      && Score(e.player) == Score(p) + deck[0]
      && (Score(e.player) == Limit ==> e.player.stopped && e.player.broken == p.broken)
      && (Score(e.player) > Limit ==> e.player.broken && e.player.stopped == p.stopped)
      && (Score(e.player) < Limit ==> e.player.broken == p.broken && e.player.stopped == p.stopped)
      && (e.phase == HousePhase <==> Score(e.player) == Limit || e.player.broken)
      && Reward(e.action.kind) == 0
  {
    SumAppend(p.hand, deck[0]);
    assert deck == [deck[0]] + deck[1..];
  }

  /** Standing: the player stops, nothing else changes, the game moves to the
      house phase whatever the score, and the reward is one. */
  lemma StopEffect(p: Player, deck: Deck, phase: Phase)
    requires Validate(Stop, p, phase)
    ensures var r := Execute(NewAction(Stop), p, deck, phase);
      && r.Ok?
      && r.value.player == p.(stopped := true)
      && r.value.player.hand == p.hand && r.value.player.broken == p.broken
      && r.value.deck == deck
      && r.value.phase == HousePhase
      && Reward(r.value.action.kind) == 1
  {
  }

  /** The observed quirk: a player that stopped at the limit may still draw,
      and a card that passes the limit then leaves it both stopped and broken.
      (In a game this never happens, because a stopped player's game is
      finished and no further step is played.) */
  lemma {:induction false} DrawAfterStopIsLegal(p: Player, deck: Deck)
    requires p.stopped && !p.broken && Score(p) == Limit && |deck| > 0 && deck[0] > 0
    ensures Validate(RequestCard, p, PlayerPhase)
    ensures var r := Execute(NewAction(RequestCard), p, deck, PlayerPhase);
      && r.Ok? && r.value.player.stopped && r.value.player.broken
      && r.value.phase == HousePhase
  {
    SumAppend(p.hand, deck[0]);
  }

  /** Drawing repeatedly until the score passes the limit breaks the player
      and sends the game to the house phase on that draw. */
  lemma {:induction false} DrawingPastTheLimitBreaks(p: Player, deck: Deck)
    requires !p.broken && |deck| > 0 && Score(p) + deck[0] > Limit
    ensures var r := Execute(NewAction(RequestCard), p, deck, PlayerPhase);
      r.Ok? && r.value.player.broken && r.value.phase == HousePhase
  {
    SumAppend(p.hand, deck[0]);
  }
}
