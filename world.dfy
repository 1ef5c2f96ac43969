/**
 * The legacy world object (world.js): a world holding its hexagons, its
 * countries and its Voronoi cells, whose `move` checks its arguments and
 * then rewrites the army counts of two country objects in place.
 */
module Worlds {
  import opened Common
  import Entities

  const SourceMissingError := "Source country is not in the world"
  const TargetMissingError := "Target country is not in the world"
  const NotEnoughArmiesError := "Source country does not have enough armies"

  /** A country object, as `move` reads and writes it. */
  class Country {
    var player: Option<Entities.Player>
    var armies: int

    constructor(player: Option<Entities.Player>, armies: int)
      ensures this.player == player && this.armies == armies
    {
      this.player := player;
      this.armies := armies;
    }
  }

  /** `World(hexagons, countries, cells)`; the hexagon and cell shapes are
      type parameters, since the model never looks inside them. */
  class World<H, L> {
    var hexagons: seq<H>
    var countries: seq<Country>
    var cells: seq<L>

    constructor(hexagons: seq<H>, countries: seq<Country>, cells: seq<L>)
      ensures this.hexagons == hexagons && this.countries == countries && this.cells == cells
    {
      this.hexagons := hexagons;
      this.countries := countries;
      this.cells := cells;
    }

    /** `attack(source, target)`: a stub that changes nothing. */
    method Attack(source: Country, target: Country)
      ensures unchanged(this, source, target)
    {
    }

    /** `move(source, target)`: fails, changing nothing, unless both countries
        are in the world (checked in that order) and the source holds more
        than one army; then the target gets all but one of the source's
        armies and the source keeps one. Only the two army counts change. */
    method Move(source: Country, target: Country) returns (r: Result<(), string>)
      modifies source`armies, target`armies
      ensures source !in countries ==> r == Failure(SourceMissingError)
      ensures source in countries && target !in countries ==> r == Failure(TargetMissingError)
      ensures source in countries && target in countries && old(source.armies) <= 1 ==>
                r == Failure(NotEnoughArmiesError)
      ensures r.Success? <==> source in countries && target in countries && old(source.armies) > 1
      ensures r.Failure? ==> source.armies == old(source.armies) && target.armies == old(target.armies)
      ensures r.Success? ==> source.armies == 1
      ensures r.Success? && target != source ==> target.armies == old(source.armies) - 1
    {
      if source !in countries {
        return Failure(SourceMissingError);
      }
      if target !in countries {
        return Failure(TargetMissingError);
      }
      if source.armies <= 1 {
        return Failure(NotEnoughArmiesError);
      }
      target.armies := source.armies - 1;
      source.armies := 1;
      r := Success(());
    }
  }
}
