/** The purchasable power-ups (multiplayer/src/games_server/power_ups.rs), shared by client and server. */
module PowerUpTypes {
  datatype PowerUp =
    | ExtraLife
    | AddLength
    | ShrinkOpponent(opponent: string)
    | FreezeOpponent(opponent: string)
    | Revive
  {
    /** The variants that name an opponent. */
    predicate Targeted() {
      ShrinkOpponent? || FreezeOpponent?
    }
  }
}

/**
 * The server's price list (multiplayer/src/games_server/power_up_cost_loader.rs). Prices are
 * `f64` in the source; here they are exact reals.
 */
module PowerUpCostLoader {
  import opened PowerUpTypes

  datatype PowerUpCosts = PowerUpCosts(
    extraLife: real,
    allLength: real,
    revive: real,
    shrinkOpponent: real,
    freezeOpponent: real)

  /** The prices the management server hands to every new game. */
  function Default(): PowerUpCosts {
    PowerUpCosts(5.0, 1.0, 10.0, 3.0, 5.0)
  }

  /** The price of a power-up: looked up by its variant alone. */
  function GetCost(costs: PowerUpCosts, p: PowerUp): (r: real)
    ensures r in {costs.extraLife, costs.allLength, costs.revive, costs.shrinkOpponent, costs.freezeOpponent}
  {
    match p
    case ExtraLife => costs.extraLife
    case AddLength => costs.allLength
    case ShrinkOpponent(_) => costs.shrinkOpponent
    case FreezeOpponent(_) => costs.freezeOpponent
    case Revive => costs.revive
  }

  lemma DefaultCosts()
    ensures GetCost(Default(), ExtraLife) == 5.0 && GetCost(Default(), Revive) == 10.0
    ensures GetCost(Default(), AddLength) == 1.0
    ensures forall o :: GetCost(Default(), ShrinkOpponent(o)) == 3.0 && GetCost(Default(), FreezeOpponent(o)) == 5.0
  {
  }

  /** The opponent named by a targeted power-up never changes its price. */
  lemma GetCostIgnoresOpponent(costs: PowerUpCosts, a: string, b: string)
    ensures GetCost(costs, ShrinkOpponent(a)) == GetCost(costs, ShrinkOpponent(b))
    ensures GetCost(costs, FreezeOpponent(a)) == GetCost(costs, FreezeOpponent(b))
  {
  }

  lemma DefaultCostsPositive(p: PowerUp)
    ensures GetCost(Default(), p) > 0.0
  {
  }
}
