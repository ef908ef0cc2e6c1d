/** DefaultSampler: passes rows through, numbering them 0, 1, 2, ..., up to an optional limit. */
module DefaultSampling {
  import opened Sampler

  datatype DefaultState = DefaultState(limitLines: int, index: int)

  /** With a positive limit the counter never passes it. */
  predicate WellFormed(s: DefaultState) {
    s.index >= 0 && (s.limitLines > 0 ==> s.index <= s.limitLines)
  }

  /** `new DefaultSampler(limitLines, parameter)`: stores the limit as given, ignores the parameter. */
  function Create(limitLines: int, parameter: Number): (s: DefaultState)
    ensures WellFormed(s)
    ensures s.limitLines == limitLines && s.index == 0
  {
    DefaultState(limitLines, 0)
  }

  /** `nextIndex()`. */
  function Next(s: DefaultState): (r: Step<DefaultState>)
    requires WellFormed(s)
    ensures WellFormed(r.state) && r.state.limitLines == s.limitLines
    ensures r.result != SKIP
    ensures r.result == END <==> s.limitLines > 0 && s.index >= s.limitLines
    ensures r.result == END ==> r.state == s
    ensures r.result != END ==> r.result == s.index && r.state.index == s.index + 1
  {
    if s.limitLines > 0 && s.index >= s.limitLines then Step(s, END)
    else Step(s.(index := s.index + 1), s.index)
  }

  class DefaultSampler {
    var limitLines: int
    var index: int

    function State(): DefaultState
      reads this
    {
      DefaultState(limitLines, index)
    }

    predicate Valid()
      reads this
    {
      WellFormed(State())
    }

    constructor (limitLines: int, parameter: Number)
      ensures Valid() && State() == Create(limitLines, parameter)
    {
      this.limitLines := limitLines;
      index := 0;
    }

    /** Only `index` changes: the limit is never reassigned. */
    method NextIndex() returns (r: int)
      requires Valid()
      modifies this`index
      ensures Valid()
      ensures r == Next(old(State())).result && State() == Next(old(State())).state
    {
      if limitLines > 0 && index >= limitLines {
        return END;
      }
      r := index;
      index := index + 1;
    }
  }
}
