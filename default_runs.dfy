/** What successive calls of DefaultSampler return, and the sample the append-only driver builds. */
module DefaultRuns {
  import opened Sampler
  import opened Seqs
  import opened Samplers
  import DS = DefaultSampling

  /** Call j from state s returns s.index + j until the positive limit is reached, and END
      from then on; END repeats because it leaves the counter where it is. */
  lemma {:induction false} ResultsFrom(s: DS.DefaultState, draws: seq<Draw>)
    requires DS.WellFormed(s)
    ensures forall j :: 0 <= j < |draws| ==>
      Run(Default(s), draws).results[j]
      == (if s.limitLines > 0 && s.index + j >= s.limitLines then END else s.index + j)
    decreases |draws|
  {
    if draws != [] {
      var st := DS.Next(s);
      ResultsFrom(st.state, draws[1..]);
      assert Run(Default(s), draws).results == [st.result] + Run(Default(st.state), draws[1..]).results;
    }
  }

  /** The counter ends at the number of calls, capped by a positive limit. */
  lemma {:induction false} IndexAfter(s: DS.DefaultState, draws: seq<Draw>)
    requires DS.WellFormed(s)
    ensures var t := Run(Default(s), draws).state;
      t.Default? && t.d.index == (if s.limitLines > 0 && s.index + |draws| > s.limitLines
                                  then s.limitLines else s.index + |draws|)
    decreases |draws|
  {
    if draws != [] {
      IndexAfter(DS.Next(s).state, draws[1..]);
    }
  }

  /** Kept calls return the output positions s.index, s.index + 1, ... without gaps. */
  lemma {:induction false} Gapless(s: DS.DefaultState, draws: seq<Draw>)
    requires DS.WellFormed(s)
    ensures GaplessFrom(Run(Default(s), draws).results, s.index)
    decreases |draws|
  {
    if draws != [] {
      var st := DS.Next(s);
      Gapless(st.state, draws[1..]);
      assert Run(Default(s), draws).results == [st.result] + Run(Default(st.state), draws[1..]).results;
    }
  }

  /** The driver keeps the first `limit` rows when the limit is positive, and all rows otherwise. */
  lemma {:induction false} Sample<T>(limit: int, parameter: Number, rows: seq<T>, draws: seq<Draw>)
    requires |draws| == |rows|
    ensures AppendDrive(Construct(DefaultStrategy, limit, parameter).value, rows, draws)
            == if limit > 0 && |rows| > limit then rows[..limit] else rows
  {
    var s := DS.Create(limit, parameter);
    var rs := Run(Default(s), draws).results;
    var e := if limit > 0 && |rows| > limit then limit else |rows|;
    ResultsFrom(s, draws);
    FirstEndAt(rs, e);
    SelectPrefix(rows, KeepMask(rs), e);
    AppendDriveSelects(Default(s), rows, draws, []);
    assert rows[..|rows|] == rows;
  }
}
