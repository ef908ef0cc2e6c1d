/** The sampling capability shared by every strategy: the two sentinel results of
    `nextIndex`, the row limit every strategy holds, the numeric parameter it is built
    with, the random outcomes a call may consume, and the construction error. */
module Sampler {

  /** Result of a call that drops the current row; the driver goes on with the next row. */
  const SKIP: int := -1

  /** Result of a call that ends sampling; the driver consumes no further rows. */
  const END: int := -2

  /** The initial value of the row limit: no limit. */
  const UNBOUNDED: int := -1

  /** What a driver reads out of one result of `nextIndex`. */
  datatype Signal = Keep(slot: nat) | Skip | End

  /** A result is a slot index or one of the two sentinels. */
  predicate IsResult(r: int) {
    r >= 0 || r == SKIP || r == END
  }

  /** How a driver interprets a result: any non-negative value is a slot, never a sentinel. */
  function Classify(r: int): (s: Signal)
    requires IsResult(r)
    ensures s.Keep? <==> r >= 0
    ensures s.Keep? ==> s.slot == r
    ensures s.Skip? <==> r == SKIP
    ensures s.End? <==> r == END
  {
    if r >= 0 then Keep(r) else if r == SKIP then Skip else End
  }

  /** The result a sampler returns for a signal. */
  function Encode(s: Signal): (r: int)
    ensures IsResult(r)
    ensures r >= 0 <==> s.Keep?
  {
    match s
    case Keep(slot) => slot
    case Skip => SKIP
    case End => END
  }

  /** Encoding and classification are inverse: the sentinels are distinct and not slots. */
  lemma ClassifyEncode(s: Signal)
    ensures Classify(Encode(s)) == s
  {
  }

  lemma EncodeClassify(r: int)
    requires IsResult(r)
    ensures Encode(Classify(r)) == r
  {
  }

  /** A `java.lang.Number` argument, by its exact value (floating-point rounding is not modelled). */
  type Number = real

  /** `Number.intValue()`: truncation toward zero. */
  function IntValue(x: Number): (n: int)
    ensures 0.0 <= x ==> n as real <= x < n as real + 1.0
    ensures x < 0.0 ==> n as real - 1.0 < x <= n as real
  {
    if x >= 0.0 then x.Floor else -((-x).Floor)
  }

  lemma {:induction false} IntValueOfInteger(n: int)
    ensures IntValue(n as real) == n
  {
    if n < 0 {
      assert (-(n as real)).Floor == -n;
    }
  }

  /** The outcomes of `java.util.Random` one call may consume, supplied by the caller:
      `below` stands for `nextDouble() <= percentage`, and `pick` is the raw draw that
      `nextInt(bound)` reduces to its range. */
  datatype Draw = Draw(below: bool, pick: nat)

  /** The draw handed to strategies that use no randomness. */
  const NoDraw: Draw := Draw(false, 0)

  /** `Random.nextInt(bound)`: defined only for a positive bound, a value in [0, bound). */
  function NextInt(bound: int, pick: nat): (r: int)
    requires bound > 0
    ensures 0 <= r < bound
    ensures pick < bound ==> r == pick
  {
    pick % bound
  }

  /** The IllegalArgumentException a constructor throws for a parameter out of its domain. */
  datatype SamplingError = IllegalArgument(message: string)

  datatype Result<+T> = Ok(value: T) | Err(error: SamplingError)

  /** One call of `nextIndex`: the sampler's new state and the value returned. */
  datatype Step<+S> = Step(state: S, result: int)
}
