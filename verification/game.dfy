/** The game (base/game.py) together with the player's step
    (base/players/player.py), which plays an action chosen by the player.

    Whether the game is initialized, its phase and its deck always change
    together in the original (all unset, or all set), so they are modelled as
    one optional `Board`: a game is initialized exactly when it has a board. */
module Games {
  import opened Results
  import opened GamePhases
  import opened Decks
  import opened Players
  import opened Actions
  import opened ActionService

  datatype Board = Board(phase: Phase, deck: Deck)

  datatype Game = Game(board: Option<Board>, player: Option<Player>)

  predicate Initialized(g: Game)
  {
    g.board.Some?
  }

  /** A constructed game: no phase, no deck, no player, not initialized. */
  function NewGame(): (g: Game)
    ensures !Initialized(g) && g.player.None?
  {
    Game(None, None)
  }

  /** Initializes a game that is not yet initialized: the player phase, a fresh
      player when asked for, and the given freshly shuffled deck. An
      initialized game is left as it is. */
  function InitializeGame(g: Game, initializePlayers: bool, freshDeck: Deck): (r: Game)
    ensures Initialized(r)
    ensures Initialized(g) ==> r == g
    ensures !Initialized(g) ==> r.board == Some(Board(PlayerPhase, freshDeck))
    ensures !Initialized(g) ==> r.player == if initializePlayers then Some(NewPlayer()) else g.player
  {
    if Initialized(g) then g
    else
      var player := if initializePlayers then Some(NewPlayer()) else g.player;
      Game(Some(Board(PlayerPhase, freshDeck)), player)
  }

  /** Initializing twice is the same as initializing once. */
  lemma InitializeIsIdempotent(g: Game, players: bool, deck: Deck, players': bool, deck': Deck)
    ensures InitializeGame(InitializeGame(g, players, deck), players', deck') == InitializeGame(g, players, deck)
  {
  }

  /** Resets a game: the board is dropped; the player is dropped, or kept and
      reset when `keepPlayers` holds (which fails when there is no player);
      then the game is initialized again when asked for, with a fresh player
      only if the old one was dropped. */
  function ResetGame(g: Game, initialize: bool, keepPlayers: bool, freshDeck: Deck): (r: Result<Game>)
    ensures r.Err? <==> keepPlayers && g.player.None?
    ensures r.Err? ==> r.error == NoPlayer
    ensures r.Ok? && keepPlayers ==> r.value.player == Some(Reset(g.player.value))
    ensures r.Ok? && !keepPlayers ==> r.value.player == if initialize then Some(NewPlayer()) else None
    ensures r.Ok? ==> (Initialized(r.value) <==> initialize)
    ensures r.Ok? && initialize ==> r.value.board == Some(Board(PlayerPhase, freshDeck))
  {
    if keepPlayers && g.player.None? then Err(NoPlayer)
    else
      var player := if keepPlayers then Some(Reset(g.player.value)) else None;
      var cleared := Game(None, player);
      if initialize then Ok(InitializeGame(cleared, !keepPlayers, freshDeck)) else Ok(cleared)
  }

  /** The player's step: execute the chosen action on the player, the deck and
      the phase. The phase it returns is the action's target phase, and every
      failure of the action protocol comes out unchanged. */
  function PlayerSingleStep(p: Player, chosen: Action, deck: Deck, phase: Phase): (r: Result<Executed>)
    ensures r.Err? <==> Execute(chosen, p, deck, phase).Err?
    ensures r.Err? ==> r.error == Execute(chosen, p, deck, phase).error
    ensures r.Ok? ==> r.value.phase == TargetPhase(chosen.kind, r.value.player)
    ensures r.Ok? ==> r.value == Execute(chosen, p, deck, phase).value
    ensures r.Ok? ==> r.value.player.hand == p.hand || chosen.kind == RequestCard
  {
    Execute(chosen, p, deck, phase)
  }

  /** Whether the game is over: the player stopped or broke. Asking with no
      player fails. */
  function IsFinished(g: Game): (r: Result<bool>)
    ensures r.Err? <==> g.player.None?
    ensures r.Ok? ==> (r.value <==> Finished(g.player.value))
  {
    if g.player.None? then Err(NoPlayer) else Ok(Finished(g.player.value))
  }

  /** Whether the player won: it stopped without passing the limit. */
  function PlayerWon(g: Game): (r: Result<bool>)
    ensures r.Err? <==> g.player.None?
    ensures r.Ok? ==> (r.value <==> g.player.value.stopped && Score(g.player.value) <= Limit)
  {
    if g.player.None? then Err(NoPlayer)
    else Ok(g.player.value.stopped && Score(g.player.value) <= Limit)
  }

  /** Plays one step with the action the player chose: fails on a game that is
      not initialized, changes nothing on a finished game, and otherwise plays
      the player's step and installs the phase it returns. */
  function PlaySingleStep(g: Game, chosen: Action): (r: Result<Game>)
    ensures !Initialized(g) ==> r == Err(NotInitialized)
    ensures Initialized(g) && g.player.None? ==> r == Err(NoPlayer)
    ensures Initialized(g) && g.player.Some? && Finished(g.player.value) ==> r == Ok(g)
    ensures r.Ok? ==> Initialized(r.value) && r.value.player.Some?
    ensures Initialized(g) && g.player.Some? && !Finished(g.player.value) ==>
      var e := PlayerSingleStep(g.player.value, chosen, g.board.value.deck, g.board.value.phase);
      && (r.Ok? <==> e.Ok?)
      && (r.Err? ==> r.error == e.error)
    ensures r.Ok? && !Finished(g.player.value) ==>
      var e := PlayerSingleStep(g.player.value, chosen, g.board.value.deck, g.board.value.phase);
      && e.Ok?
      && r.value == Game(Some(Board(e.value.phase, e.value.deck)), Some(e.value.player))
  {
    if !Initialized(g) then Err(NotInitialized)
    else
      var finished :- IsFinished(g);
      if finished then Ok(g)
      else
        var b := g.board.value;
        var e :- PlayerSingleStep(g.player.value, chosen, b.deck, b.phase);
        Ok(Game(Some(Board(e.phase, e.deck)), Some(e.player)))
  }

  // ---------------------------------------------------------------------------
  // The invariant of reachable games
  // ---------------------------------------------------------------------------

  /** A player whose flags agree with its score: broken exactly when the score
      is past the limit, and never both broken and stopped. */
  predicate Consistent(p: Player)
  {
    && (p.broken <==> Score(p) > Limit)
    && !(p.broken && p.stopped)
  }

  /** What holds of every game built from a new game by resets,
      initializations and steps: a game without a board has no player or a
      fresh one; a game with a board and a player has a consistent player, and
      it is in the house phase exactly when the player's turn is over. */
  predicate Reachable(g: Game)
  {
    match g.board
    case None => g.player.None? || g.player == Some(NewPlayer())
    case Some(b) =>
      g.player.Some? ==> Consistent(g.player.value) && (b.phase == HousePhase <==> Finished(g.player.value))
  }

  lemma NewGameIsReachable()
    ensures Reachable(NewGame())
  {
  }

  lemma InitializePreservesReachable(g: Game, initializePlayers: bool, freshDeck: Deck)
    requires Reachable(g)
    ensures Reachable(InitializeGame(g, initializePlayers, freshDeck))
  {
  }

  lemma ResetPreservesReachable(g: Game, initialize: bool, keepPlayers: bool, freshDeck: Deck)
    requires Reachable(g)
    ensures ResetGame(g, initialize, keepPlayers, freshDeck).Ok? ==>
      Reachable(ResetGame(g, initialize, keepPlayers, freshDeck).value)
  {
  }

  /** A step keeps a reachable game reachable. */
  lemma StepPreservesReachable(g: Game, chosen: Action)
    requires Reachable(g)
    ensures PlaySingleStep(g, chosen).Ok? ==> Reachable(PlaySingleStep(g, chosen).value)
  {
  }

  /** In a reachable game the player is never both broken and stopped, and
      broken only past the limit; so winning is the same as having stopped. */
  lemma ReachablePlayerFlags(g: Game)
    requires Reachable(g) && g.player.Some?
    ensures g.player.value.broken ==> Score(g.player.value) > Limit
    ensures !(g.player.value.broken && g.player.value.stopped)
    ensures PlayerWon(g) == Ok(g.player.value.stopped)
  {
  }

  /** While a reachable game is not finished every catalog action is legal, and
      once it is finished none is: the mask has a legal entry exactly while the
      game goes on. */
  lemma MaskTracksFinished(g: Game)
    requires Reachable(g) && Initialized(g) && g.player.Some?
    ensures var m := ValidActionsMask(g.player.value, g.board.value.phase);
      && (!Finished(g.player.value) ==> forall i :: 0 <= i < |m| ==> m[i])
      && (Finished(g.player.value) ==> forall i :: 0 <= i < |m| ==> !m[i])
  {
  }

  /** An unexecuted action that the mask allows is accepted by the step of an
      unfinished game; only an empty deck can still stop a draw. */
  lemma MaskedActionIsAccepted(g: Game, index: int)
    requires Reachable(g) && Initialized(g) && g.player.Some? && !Finished(g.player.value)
    requires 0 <= index < NumActions()
    requires ValidActionsMask(g.player.value, g.board.value.phase)[index]
    ensures var a := IdxToAction(index).value;
      PlaySingleStep(g, a).Ok? || (a.kind == RequestCard && |g.board.value.deck| == 0)
  {
  }

  /** Two draws that reach the limit exactly stop the player and end the turn;
      standing afterwards is illegal when forced directly, and a step of the
      finished game changes nothing. */
  lemma DrawToLimitThenStop()
    ensures var g0 := ResetGame(NewGame(), true, false, [10, 11, 3]);
      && g0.Ok?
      && var g1 := PlaySingleStep(g0.value, NewAction(RequestCard));
      && g1.Ok? && g1.value.board.value.phase == PlayerPhase
      && var g2 := PlaySingleStep(g1.value, NewAction(RequestCard));
      && g2.Ok?
      && var p := g2.value.player.value;
      && var b := g2.value.board.value;
      && p.stopped && !p.broken && Score(p) == Limit && b.phase == HousePhase && b.deck == [3]
      && Execute(NewAction(Stop), p, b.deck, b.phase) == Err(InvalidAction)
      && ValidActionsMask(p, b.phase) == [false, false]
      && PlaySingleStep(g2.value, NewAction(Stop)) == Ok(g2.value)
      && PlayerWon(g2.value) == Ok(true)
  {
    var g0 := ResetGame(NewGame(), true, false, [10, 11, 3]);
    SumAppend([], 10);
    SumAppend([10], 11);
    var g1 := PlaySingleStep(g0.value, NewAction(RequestCard));
    assert g1.value.player.value.hand == [10];
    var g2 := PlaySingleStep(g1.value, NewAction(RequestCard));
    assert g2.value.player.value.hand == [10, 11];
  }
}
