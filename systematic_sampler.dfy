/** SystematicSampler: keeps every stepSize-th row, starting with the first. */
module SystematicSampling {
  import opened Sampler

  datatype SystematicState = SystematicState(limitLines: int, stepSize: int, count: int, index: int)

  predicate WellFormed(s: SystematicState) {
    s.stepSize > 0 && s.count >= 0 && 0 <= s.index <= s.count
  }

  /** `new SystematicSampler(limit, stepSize)`: throws unless the step, as an int, is positive. */
  function Create(limitLines: int, stepSize: Number): (r: Result<SystematicState>)
    ensures r.Ok? <==> IntValue(stepSize) > 0
    ensures r.Ok? ==> WellFormed(r.value) && r.value.limitLines == limitLines
    ensures r.Ok? ==> r.value.stepSize == IntValue(stepSize) && r.value.count == 0 && r.value.index == 0
  {
    if IntValue(stepSize) <= 0 then
      Err(IllegalArgument("Sampling factor (step size) can not be less than or equal to zero"))
    else
      Ok(SystematicState(limitLines, IntValue(stepSize), 0, 0))
  }

  /** `nextIndex()`: counts the call first, then checks the limit, then the step. */
  function Next(s: SystematicState): (r: Step<SystematicState>)
    requires WellFormed(s)
    ensures WellFormed(r.state)
    ensures r.state.limitLines == s.limitLines && r.state.stepSize == s.stepSize
    ensures r.state.count == s.count + 1
    ensures r.result == END <==> s.limitLines > 0 && s.count + 1 >= s.limitLines
    ensures r.result >= 0 <==> r.result != END && s.count % s.stepSize == 0
    ensures r.result >= 0 ==> r.result == s.index && r.state.index == s.index + 1
    ensures r.result < 0 ==> r.state.index == s.index
  {
    var count := s.count + 1;
    if s.limitLines > 0 && count >= s.limitLines then Step(s.(count := count), END)
    else if (count - 1) % s.stepSize == 0 then Step(s.(count := count, index := s.index + 1), s.index)
    else Step(s.(count := count), SKIP)
  }

  class SystematicSampler {
    var limitLines: int
    var index: int
    var count: int
    var stepSize: int

    function State(): SystematicState
      reads this
    {
      SystematicState(limitLines, stepSize, count, index)
    }

    predicate Valid()
      reads this
    {
      WellFormed(State())
    }

    constructor (limit: int, stepSize: Number)
      requires IntValue(stepSize) > 0
      ensures Valid() && State() == Create(limit, stepSize).value
    {
      limitLines := limit;
      index := 0;
      count := 0;
      this.stepSize := IntValue(stepSize);
    }

    /** The constructor with its exception: an error instead of a sampler for a bad step. */
    static method New(limit: int, stepSize: Number) returns (r: Result<SystematicSampler>)
      ensures r.Ok? <==> Create(limit, stepSize).Ok?
      ensures r.Err? ==> r.error == Create(limit, stepSize).error
      ensures r.Ok? ==> fresh(r.value) && r.value.Valid() && r.value.State() == Create(limit, stepSize).value
    {
      if IntValue(stepSize) <= 0 {
        return Err(Create(limit, stepSize).error);
      }
      var sampler := new SystematicSampler(limit, stepSize);
      return Ok(sampler);
    }

    method NextIndex() returns (r: int)
      requires Valid()
      modifies this`count, this`index
      ensures Valid()
      ensures r == Next(old(State())).result && State() == Next(old(State())).state
    {
      count := count + 1;
      if limitLines > 0 && count >= limitLines {
        return END;
      }
      if (count - 1) % stepSize == 0 {
        r := index;
        index := index + 1;
      } else {
        r := SKIP;
      }
    }
  }
}
