/**
 * The game's selection state machine (game.js). A game is an immutable
 * snapshot: every transition returns a new one. The world the game wraps is
 * left abstract; the world and country operations the game calls are passed
 * in as `WorldOps`.
 */
module Games {
  import opened Common
  import opened Entities

  /** `PLAYERS`: the number of players in the game. */
  const PLAYERS: nat := 5

  /** The error `selectPlayer` throws when the player is already selected. */
  const AlreadySelectedError := "The player is already selected"

  /**
   * The operations of the world and its countries that the game calls:
   * `world.assignPlayers`, `world.countriesOccupiedByPlayer`,
   * `world.reinforce`, the three-argument `world.move` and
   * `country.hasNeighbour`. Their definitions are not part of this model.
   */
  datatype WorldOps<!W> = WorldOps(
    assignPlayers: (W, seq<Player>) -> W,
    countriesOccupiedByPlayer: (W, Option<Player>) -> seq<Country>,
    reinforce: (W, Player) -> W,
    move: (W, Option<Player>, Option<Country>, Option<Country>) -> W,
    hasNeighbour: (Country, Country) -> bool)

  /** The sum of the armies of some countries. */
  function SumArmies(cs: seq<Country>): int
  {
    if cs == [] then 0 else cs[0].armies + SumArmies(cs[1..])
  }

  /** One player per id `0 .. n - 1`, in order, so no two players share an id. */
  function Players(n: nat): (r: seq<Player>)
    ensures |r| == n && forall i :: 0 <= i < n ==> r[i] == Player(i)
    ensures forall i, j :: 0 <= i < j < n ==> r[i] != r[j]
  {
    seq(n, i requires 0 <= i < n => Player(i))
  }

  /** A game snapshot; `null` is `None`. */
  datatype Game<W> = Game(players: seq<Player>, world: W, currentPlayer: Option<Player>, selectedCountry: Option<Country>)
  {
    /** The state invariant: a selected country belongs to the current player. */
    predicate Valid()
    {
      selectedCountry.Some? ==> selectedCountry.value.player == currentPlayer
    }

    /** `canSelectPlayer(player)`. */
    predicate CanSelectPlayer(p: Option<Player>)
    {
      p.Some? && p != currentPlayer
    }

    /** `canSetCountry(country)`: selecting such a country keeps the state invariant. */
    predicate CanSetCountry(c: Option<Country>)
      ensures Valid() && CanSetCountry(c) ==> this.(selectedCountry := c).Valid()
    {
      c.Some? && c.value.player == currentPlayer
    }

    /** `canUnsetCountry(country)`: a country the current player may deselect
        is one they may select. */
    predicate CanUnsetCountry(c: Option<Country>)
      ensures CanUnsetCountry(c) ==> CanSetCountry(c)
    {
      c.Some? && c.value.player == currentPlayer && c == selectedCountry
    }

    /** `canMoveToCountry(country)`: a move target is never a country to select
        or deselect, and the selected country holds more than one army. */
    predicate CanMoveToCountry(ops: WorldOps<W>, c: Option<Country>)
      ensures CanMoveToCountry(ops, c) ==> !CanSetCountry(c) && !CanUnsetCountry(c)
      ensures CanMoveToCountry(ops, c) ==> selectedCountry.Some? && selectedCountry.value.armies - 1 >= 1
    {
      c.Some? && currentPlayer.Some? && c.value.player != currentPlayer &&
      selectedCountry.Some? && selectedCountry.value.armies > 1 &&
      ops.hasNeighbour(selectedCountry.value, c.value)
    }

    /** `canSelectCountry(country)`: exactly one of the two reasons holds. */
    predicate CanSelectCountry(ops: WorldOps<W>, c: Option<Country>)
      ensures CanSelectCountry(ops, c) ==> c.Some? && CanMoveToCountry(ops, c) != CanSetCountry(c)
    {
      CanMoveToCountry(ops, c) || CanSetCountry(c)
    }

    /** `armiesForPlayer(player)`: the armies of the player's countries, summed. */
    function ArmiesForPlayer(ops: WorldOps<W>, p: Option<Player>): (r: int)
      ensures ops.countriesOccupiedByPlayer(world, p) == [] ==> r == 0
      ensures (forall c :: c in ops.countriesOccupiedByPlayer(world, p) ==> c.armies >= 1) ==>
                r >= |ops.countriesOccupiedByPlayer(world, p)|
      ensures r == SumArmies(ops.countriesOccupiedByPlayer(world, p))
    {
      var cs := ops.countriesOccupiedByPlayer(world, p);
      SumArmiesAtLeast(cs);
      SumArmies(cs)
    }

    /** `moveToCountry(country)`: the world moves armies from the selected
        country and the selection is cleared. */
    function MoveToCountry(ops: WorldOps<W>, c: Option<Country>): (r: Game<W>)
      ensures r.world == ops.move(world, currentPlayer, selectedCountry, c)
      ensures r.selectedCountry == None && r.players == players && r.currentPlayer == currentPlayer
    {
      this.(selectedCountry := None, world := ops.move(world, currentPlayer, selectedCountry, c))
    }

    /** `selectCountry(country)`: move if a move is legal, else deselect the
        selected country, else select an own country, else nothing. */
    function SelectCountry(ops: WorldOps<W>, c: Option<Country>): (r: Game<W>)
      ensures r.players == players && r.currentPlayer == currentPlayer
      ensures CanMoveToCountry(ops, c) ==> r == MoveToCountry(ops, c)
      ensures !CanMoveToCountry(ops, c) ==> r.world == world
      ensures !CanMoveToCountry(ops, c) && CanSetCountry(c) ==>
                r.selectedCountry == (if c == selectedCountry then None else c)
      ensures !CanSelectCountry(ops, c) ==> r == this
    {
      if CanMoveToCountry(ops, c) then MoveToCountry(ops, c)
      else if CanUnsetCountry(c) then this.(selectedCountry := None)
      else if CanSetCountry(c) then this.(selectedCountry := c)
      else this
    }

    /** `selectPlayer(player)`: hand the turn to `p`, reinforcing the outgoing
        player if there was one; fails if `p` is already the current player. */
    function SelectPlayer(ops: WorldOps<W>, p: Option<Player>): (r: Result<Game<W>, string>)
      ensures r.Failure? <==> p == currentPlayer
      ensures r.Failure? ==> r.error == AlreadySelectedError
      ensures r.Success? ==>
                r.value.currentPlayer == p && r.value.selectedCountry == None && r.value.players == players &&
                r.value.world == (if currentPlayer.Some? then ops.reinforce(world, currentPlayer.value) else world)
    {
      if p == currentPlayer then Failure(AlreadySelectedError)
      else
        var w := if currentPlayer.Some? then ops.reinforce(world, currentPlayer.value) else world;
        Success(this.(currentPlayer := p, selectedCountry := None, world := w))
    }
  }

  /** `Game(world)`: five players, numbered from 0, placed by the world;
      nobody is current and nothing is selected. */
  function NewGame<W>(ops: WorldOps<W>, world: W): (r: Game<W>)
    ensures |r.players| == PLAYERS && forall i :: 0 <= i < PLAYERS ==> r.players[i].id == i
    ensures r.world == ops.assignPlayers(world, r.players)
    ensures r.currentPlayer == None && r.selectedCountry == None && r.Valid()
  {
    var players := Players(PLAYERS);
    Game(players, ops.assignPlayers(world, players), None, None)
  }

  /** When every country holds at least one army, the sum is at least their number. */
  lemma {:induction false} SumArmiesAtLeast(cs: seq<Country>)
    ensures (forall c :: c in cs ==> c.armies >= 1) ==> SumArmies(cs) >= |cs|
    decreases |cs|
  {
    if cs != [] {
      assert forall c :: c in cs[1..] ==> c in cs;
      SumArmiesAtLeast(cs[1..]);
    }
  }

  /** The armies of two lists of countries add up. */
  lemma {:induction false} SumArmiesAppend(a: seq<Country>, b: seq<Country>)
    ensures SumArmies(a + b) == SumArmies(a) + SumArmies(b)
    decreases |a|
  {
    if a == [] {
      assert a + b == b;
    } else {
      assert (a + b)[1..] == a[1..] + b;
      SumArmiesAppend(a[1..], b);
    }
  }

  /** The sum does not depend on the order the world lists the countries in. */
  lemma {:induction false} SumArmiesPermutation(a: seq<Country>, b: seq<Country>)
    requires multiset(a) == multiset(b)
    ensures SumArmies(a) == SumArmies(b)
    decreases |a|
  {
    if a != [] {
      assert a[0] in multiset(b);
      var i :| 0 <= i < |b| && b[i] == a[0];
      var rest := b[..i] + b[i + 1..];
      assert b == b[..i] + ([b[i]] + b[i + 1..]);
      SumArmiesAppend(b[..i], [b[i]] + b[i + 1..]);
      SumArmiesAppend(b[..i], b[i + 1..]);
      assert a == [a[0]] + a[1..];
      assert multiset(a) == multiset{a[0]} + multiset(a[1..]);
      assert multiset(b) == multiset(b[..i]) + multiset{b[i]} + multiset(b[i + 1..]);
      assert multiset(rest) == multiset(b[..i]) + multiset(b[i + 1..]);
      assert multiset(a[1..]) == multiset(a) - multiset{a[0]};
      assert multiset(rest) == multiset(b) - multiset{b[i]};
      SumArmiesPermutation(a[1..], rest);
    }
  }

  /** `canSelectCountry` says exactly when `selectCountry` does something:
      otherwise the game comes back unchanged, and when it holds the
      selection changes. */
  lemma SelectCountryActs<W>(g: Game<W>, ops: WorldOps<W>, c: Option<Country>)
    ensures g.CanSelectCountry(ops, c) <==> g.SelectCountry(ops, c).selectedCountry != g.selectedCountry
    ensures !g.CanSelectCountry(ops, c) <==> g.SelectCountry(ops, c) == g
  {
  }

  /** Every transition keeps the state invariant. */
  lemma TransitionsKeepValid<W>(g: Game<W>, ops: WorldOps<W>, c: Option<Country>, p: Option<Player>)
    requires g.Valid()
    ensures g.SelectCountry(ops, c).Valid()
    ensures g.MoveToCountry(ops, c).Valid()
    ensures g.SelectPlayer(ops, p).Success? ==> g.SelectPlayer(ops, p).value.Valid()
  {
  }

  /** Selecting an own country with nothing selected, then selecting it again,
      gives back the original game. */
  lemma SelectDeselect<W>(g: Game<W>, ops: WorldOps<W>, c: Option<Country>)
    requires g.selectedCountry == None && g.CanSetCountry(c)
    ensures g.SelectCountry(ops, c).selectedCountry == c
    ensures g.SelectCountry(ops, c).SelectCountry(ops, c) == g
  {
  }

  /** A selectable player can be selected, and afterwards no longer is. */
  lemma SelectPlayerOnce<W>(g: Game<W>, ops: WorldOps<W>, p: Option<Player>)
    ensures g.CanSelectPlayer(p) ==> g.SelectPlayer(ops, p).Success?
    ensures g.SelectPlayer(ops, p).Success? ==>
              !g.SelectPlayer(ops, p).value.CanSelectPlayer(p) && g.SelectPlayer(ops, p).value.SelectPlayer(ops, p).Failure?
  {
  }
}
