/** Conversion between real prices and the integer ticks that key the order book. */
module Ticks {

  const TICKS_PER_UNIT := 1000000.0

  /** Rounds to the nearest integer, halves away from zero (as `f64::round` does). */
  function Round(x: real): int {
    if x >= 0.0 then (x + 0.5).Floor else -(0.5 - x).Floor
  }

  function PriceToTicks(price: real): int {
    Round(price * TICKS_PER_UNIT)
  }

  function TicksToPrice(ticks: int): real {
    ticks as real / TICKS_PER_UNIT
  }

  /** A price that is a whole number of ticks. */
  predicate OnGrid(price: real) {
    TicksToPrice(PriceToTicks(price)) == price
  }

  function Abs(x: real): real {
    if x < 0.0 then -x else x
  }

  /** `Round(x)` is the nearest integer to `x`; of two equally near ones it is the larger in magnitude. */
  lemma {:induction false} RoundIsNearest(x: real, n: int)
    ensures Abs(x - Round(x) as real) <= Abs(x - n as real)
    ensures n != Round(x) && Abs(x - Round(x) as real) == Abs(x - n as real) ==>
              Abs(n as real) < Abs(Round(x) as real)
  {
  }

  /** Converting a tick to a price and back loses nothing. */
  lemma {:induction false} TicksRoundTrip(t: int)
    ensures PriceToTicks(TicksToPrice(t)) == t
  {
  }

  /** Converting a price to a tick and back moves it by at most half a tick. */
  lemma {:induction false} PriceWithinHalfTick(price: real)
    ensures Abs(TicksToPrice(PriceToTicks(price)) - price) <= 0.0000005
  {
  }

  /** Round-to-nearest cannot carry a price past a tick that lies strictly above it. */
  lemma {:induction false} RoundsBelow(price: real, t: int)
    requires price < TicksToPrice(t)
    ensures PriceToTicks(price) <= t
    ensures OnGrid(price) ==> PriceToTicks(price) < t
  {
  }

  /** Nor past a tick that lies strictly below it. */
  lemma {:induction false} RoundsAbove(price: real, t: int)
    requires TicksToPrice(t) < price
    ensures t <= PriceToTicks(price)
    ensures OnGrid(price) ==> t < PriceToTicks(price)
  {
  }
}
