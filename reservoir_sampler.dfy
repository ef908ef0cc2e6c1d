/** ReservoirSampler: fills slots 0..k-1, then names a slot to overwrite or skips. */
module ReservoirSampling {
  import opened Sampler

  datatype ReservoirState = ReservoirState(limitLines: int, reservoirSize: int, count: int, index: int)

  function Min(a: int, b: int): int {
    if a < b then a else b
  }

  /** `count` is the 0-based position of the last row seen (-1 before the first), and
      `index` the number of slots filled so far. */
  predicate WellFormed(s: ReservoirState) {
    s.reservoirSize >= 0 && s.count >= -1 && s.index == Min(s.count + 1, s.reservoirSize)
  }

  /** `new ReservoirSampler(limit, reservoirSize)`: throws for a negative size (as an int); 0 is accepted. */
  function Create(limitLines: int, reservoirSize: Number): (r: Result<ReservoirState>)
    ensures r.Ok? <==> IntValue(reservoirSize) >= 0
    ensures r.Ok? ==> WellFormed(r.value) && r.value.limitLines == limitLines
    ensures r.Ok? ==> r.value.reservoirSize == IntValue(reservoirSize) && r.value.count == -1 && r.value.index == 0
  {
    if IntValue(reservoirSize) < 0 then
      Err(IllegalArgument("Sampling factor (reservoir size) must be greater than 0."))
    else
      Ok(ReservoirState(limitLines, IntValue(reservoirSize), -1, 0))
  }

  /** `nextIndex()`; `pick` is the raw outcome behind `random.nextInt(count)`. */
  function Next(s: ReservoirState, pick: nat): (r: Step<ReservoirState>)
    requires WellFormed(s)
    ensures WellFormed(r.state)
    ensures r.state.limitLines == s.limitLines && r.state.reservoirSize == s.reservoirSize
    ensures r.result == END <==> s.reservoirSize == 0
    ensures r.result == END ==> r.state == s
    ensures r.result != END ==> r.state.count == s.count + 1
    ensures s.count + 1 < s.reservoirSize ==> r.result == s.index == s.count + 1
    ensures 0 < s.reservoirSize <= s.count + 1 ==> r.result == SKIP || 0 <= r.result < s.reservoirSize
  {
    if s.reservoirSize == 0 then Step(s, END)
    else
      var count := s.count + 1;
      if count < s.reservoirSize then Step(s.(count := count, index := s.index + 1), s.index)
      else
        var replaceIndex := NextInt(count, pick);
        if replaceIndex < s.reservoirSize then Step(s.(count := count), replaceIndex)
        else Step(s.(count := count), SKIP)
  }

  class ReservoirSampler {
    var limitLines: int
    const reservoirSize: int
    var index: int
    var count: int

    function State(): ReservoirState
      reads this
    {
      ReservoirState(limitLines, reservoirSize, count, index)
    }

    predicate Valid()
      reads this
    {
      WellFormed(State())
    }

    constructor (limit: int, reservoirSize: Number)
      requires IntValue(reservoirSize) >= 0
      ensures Valid() && State() == Create(limit, reservoirSize).value
    {
      limitLines := limit;
      this.reservoirSize := IntValue(reservoirSize);
      index := 0;
      count := -1;
    }

    /** The constructor with its exception: an error instead of a sampler for a negative size. */
    static method New(limit: int, reservoirSize: Number) returns (r: Result<ReservoirSampler>)
      ensures r.Ok? <==> Create(limit, reservoirSize).Ok?
      ensures r.Err? ==> r.error == Create(limit, reservoirSize).error
      ensures r.Ok? ==> fresh(r.value) && r.value.Valid() && r.value.State() == Create(limit, reservoirSize).value
    {
      if IntValue(reservoirSize) < 0 {
        return Err(Create(limit, reservoirSize).error);
      }
      var sampler := new ReservoirSampler(limit, reservoirSize);
      return Ok(sampler);
    }

    method NextIndex(pick: nat) returns (r: int)
      requires Valid()
      modifies this`count, this`index
      ensures Valid()
      ensures r == Next(old(State()), pick).result && State() == Next(old(State()), pick).state
    {
      if reservoirSize == 0 {
        return END;
      }
      count := count + 1;
      if count < reservoirSize {
        r := index;
        index := index + 1;
        return;
      }
      var replaceIndex := NextInt(count, pick);
      if replaceIndex < reservoirSize {
        return replaceIndex;
      }
      return SKIP;
    }
  }
}
