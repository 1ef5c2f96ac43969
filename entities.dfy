/**
 * The game's value entities: a player and a country as the graph stores it.
 * Country and player objects are created outside the modelled files; they
 * are represented here by the fields the modelled code reads.
 */
module Entities {
  import opened Common

  /** `Player(id)`: one of the game's players. */
  datatype Player = Player(id: nat)

  /**
   * A country vertex: its key, its occupying player (`null` when nobody
   * occupies it), its army count and `availableSlots`, the number of armies
   * it can still take, which the country object computes itself.
   */
  datatype Country = Country(id: int, player: Option<Player>, armies: int, availableSlots: int)
}
