/** The two phases of a turn. */
module GamePhases {

  /** Exactly one phase is current: the player acts, or the house acts. */
  datatype Phase = PlayerPhase | HousePhase
}
