/** What successive calls of BernoulliSampler return, and the sample the append-only driver builds. */
module BernoulliRuns {
  import opened Sampler
  import opened Seqs
  import opened Samplers
  import BS = BernoulliSampling

  /** Whether a call with draw d keeps its row (for a non-zero percentage). */
  predicate Kept(p: real, d: Draw) {
    d.below || p == 1.0
  }

  /** Percentage 0 answers END to every call; otherwise a call keeps its row exactly when
      its draw is at most the percentage or the percentage is 1, and skips it otherwise. */
  lemma {:induction false} ResultsFrom(s: BS.BernoulliState, draws: seq<Draw>)
    requires BS.WellFormed(s)
    ensures forall j :: 0 <= j < |draws| ==>
      (Run(Bernoulli(s), draws).results[j] == END <==> s.percentage == 0.0)
      && (Run(Bernoulli(s), draws).results[j] >= 0 <==> s.percentage != 0.0 && Kept(s.percentage, draws[j]))
    decreases |draws|
  {
    if draws != [] {
      var st := BS.Next(s, draws[0].below);
      ResultsFrom(st.state, draws[1..]);
      assert Run(Bernoulli(s), draws).results == [st.result] + Run(Bernoulli(st.state), draws[1..]).results;
    }
  }

  /** The number of kept calls among results. */
  function CountKept(rs: seq<int>): (n: nat)
    ensures n <= |rs|
  {
    if rs == [] then 0 else (if rs[0] >= 0 then 1 else 0) + CountKept(rs[1..])
  }

  /** Kept calls return s.index, s.index + 1, ... without gaps, and `index` ends up counting
      the kept rows. */
  lemma {:induction false} Gapless(s: BS.BernoulliState, draws: seq<Draw>)
    requires BS.WellFormed(s)
    ensures GaplessFrom(Run(Bernoulli(s), draws).results, s.index)
    ensures Run(Bernoulli(s), draws).state.Bernoulli?
    ensures Run(Bernoulli(s), draws).state.b.index == s.index + CountKept(Run(Bernoulli(s), draws).results)
    decreases |draws|
  {
    if draws != [] {
      var st := BS.Next(s, draws[0].below);
      Gapless(st.state, draws[1..]);
      var rs := Run(Bernoulli(s), draws).results;
      assert rs == [st.result] + Run(Bernoulli(st.state), draws[1..]).results;
      assert rs[1..] == Run(Bernoulli(st.state), draws[1..]).results;
    }
  }

  /** The limit plays no part in what a Bernoulli sampler returns. */
  lemma {:induction false} LimitIgnored(s: BS.BernoulliState, limit: int, draws: seq<Draw>)
    requires BS.WellFormed(s)
    ensures Run(Bernoulli(s), draws).results == Run(Bernoulli(s.(limitLines := limit)), draws).results
    decreases |draws|
  {
    if draws != [] {
      LimitIgnored(BS.Next(s, draws[0].below).state, limit, draws[1..]);
    }
  }

  /** Percentage 0 keeps nothing; otherwise the driver keeps exactly the rows whose draw was
      at most the percentage (every row for percentage 1), in their input order. */
  lemma {:induction false} Sample<T>(limit: int, percentage: Number, rows: seq<T>, draws: seq<Draw>)
    requires 0.0 <= percentage <= 1.0 && |draws| == |rows|
    ensures AppendDrive(Construct(BernoulliStrategy, limit, percentage).value, rows, draws)
            == if percentage == 0.0 then []
               else Select(rows, seq(|rows|, j requires 0 <= j < |rows| => Kept(percentage, draws[j])))
  {
    var s := BS.Create(limit, percentage).value;
    var rs := Run(Bernoulli(s), draws).results;
    ResultsFrom(s, draws);
    AppendDriveSelects(Bernoulli(s), rows, draws, []);
    if percentage == 0.0 {
      if rows != [] {
        FirstEndAt(rs, 0);
      }
      SelectPrefix(rows, KeepMask(rs), 0);
    } else {
      FirstEndAt(rs, |rs|);
      var mask, kept := KeepMask(rs), seq(|rows|, j requires 0 <= j < |rows| => Kept(percentage, draws[j]));
      forall j | 0 <= j < |rows| ensures mask[j] == kept[j] {
        assert mask[j] == (rs[j] != SKIP) && (rs[j] != SKIP <==> rs[j] >= 0);
      }
      assert mask == kept;
    }
  }

  /** Percentage 1 keeps every row, whatever the draws. */
  lemma {:induction false} SampleAll<T>(limit: int, rows: seq<T>, draws: seq<Draw>)
    requires |draws| == |rows|
    ensures AppendDrive(Construct(BernoulliStrategy, limit, 1.0).value, rows, draws) == rows
  {
    Sample(limit, 1.0, rows, draws);
    SelectPrefix(rows, seq(|rows|, j requires 0 <= j < |rows| => Kept(1.0, draws[j])), |rows|);
    assert rows[..|rows|] == rows;
  }
}
