/** BernoulliSampler: keeps each row independently with probability `percentage`. */
module BernoulliSampling {
  import opened Sampler

  datatype BernoulliState = BernoulliState(limitLines: int, percentage: real, index: int)

  predicate WellFormed(s: BernoulliState) {
    0.0 <= s.percentage <= 1.0 && s.index >= 0
  }

  /** `new BernoulliSampler(limitLines, percentage)`: throws unless 0 <= percentage <= 1. */
  function Create(limitLines: int, percentage: Number): (r: Result<BernoulliState>)
    ensures r.Ok? <==> 0.0 <= percentage <= 1.0
    ensures r.Ok? ==> WellFormed(r.value) && r.value.limitLines == limitLines
    ensures r.Ok? ==> r.value.percentage == percentage && r.value.index == 0
  {
    if percentage < 0.0 || percentage > 1.0 then
      Err(IllegalArgument("Sampling factor (percentage) must be between 0 and 100"))
    else
      Ok(BernoulliState(limitLines, percentage, 0))
  }

  /** `nextIndex()`; `below` is the outcome of `random.nextDouble() <= percentage`. */
  function Next(s: BernoulliState, below: bool): (r: Step<BernoulliState>)
    requires WellFormed(s)
    ensures WellFormed(r.state)
    ensures r.state.limitLines == s.limitLines && r.state.percentage == s.percentage
    ensures r.result == END <==> s.percentage == 0.0
    ensures r.result >= 0 <==> s.percentage != 0.0 && (below || s.percentage == 1.0)
    ensures r.result >= 0 ==> r.result == s.index && r.state.index == s.index + 1
    ensures r.result < 0 ==> r.result == (if s.percentage == 0.0 then END else SKIP) && r.state == s
  {
    if s.percentage == 0.0 then Step(s, END)
    else if below || s.percentage == 1.0 then Step(s.(index := s.index + 1), s.index)
    else Step(s, SKIP)
  }

  class BernoulliSampler {
    var limitLines: int
    var index: int
    var percentage: real

    function State(): BernoulliState
      reads this
    {
      BernoulliState(limitLines, percentage, index)
    }

    predicate Valid()
      reads this
    {
      WellFormed(State())
    }

    constructor (limitLines: int, percentage: Number)
      requires 0.0 <= percentage <= 1.0
      ensures Valid() && State() == Create(limitLines, percentage).value
    {
      this.limitLines := limitLines;
      index := 0;
      this.percentage := percentage;
    }

    /** The constructor with its exception: an error instead of a sampler for a bad percentage. */
    static method New(limitLines: int, percentage: Number) returns (r: Result<BernoulliSampler>)
      ensures r.Ok? <==> Create(limitLines, percentage).Ok?
      ensures r.Err? ==> r.error == Create(limitLines, percentage).error
      ensures r.Ok? ==> fresh(r.value) && r.value.Valid() && r.value.State() == Create(limitLines, percentage).value
    {
      if percentage < 0.0 || percentage > 1.0 {
        return Err(Create(limitLines, percentage).error);
      }
      var sampler := new BernoulliSampler(limitLines, percentage);
      return Ok(sampler);
    }

    method NextIndex(below: bool) returns (r: int)
      requires Valid()
      modifies this`index
      ensures Valid()
      ensures r == Next(old(State()), below).result && State() == Next(old(State()), below).state
    {
      if percentage == 0.0 {
        return END;
      }
      if below || percentage == 1.0 {
        r := index;
        index := index + 1;
        return;
      }
      return SKIP;
    }
  }
}
