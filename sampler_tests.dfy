/** The row-iteration drivers of the sampler tests, over the sampler objects, and the
    outcomes their test cases expect, proved for every outcome of the random draws. */
module SamplerTests {
  import opened Sampler
  import opened Seqs
  import opened Samplers
  import SS = SystematicSampling
  import BS = BernoulliSampling
  import RS = ReservoirSampling
  import SystematicRuns
  import BernoulliRuns
  import ReservoirRuns

  /** The `sample` helper of the Systematic tests: append each kept row, stop at END; the
      sampler is left where the driver stopped. */
  method SampleSystematic<T>(sampler: SS.SystematicSampler, target: seq<T>) returns (result: seq<T>)
    requires sampler.Valid()
    modifies sampler
    ensures sampler.Valid()
    ensures Systematic(sampler.State()) == DrivenState(Systematic(old(sampler.State())), NoDraws(|target|))
    ensures result == AppendDrive(Systematic(old(sampler.State())), target, NoDraws(|target|))
  {
    ghost var s0 := Systematic(sampler.State());
    ghost var draws := NoDraws(|target|);
    result := [];
    var i := 0;
    while i < |target|
      invariant 0 <= i <= |target| && sampler.Valid()
      invariant DrivenState(s0, draws) == DrivenState(Systematic(sampler.State()), draws[i..])
      invariant AppendDrive(s0, target, draws) == AppendFrom(Systematic(sampler.State()), target[i..], draws[i..], result)
    {
      ghost var before := Systematic(sampler.State());
      assert target[i..][1..] == target[i + 1..] && draws[i..][1..] == draws[i + 1..];
      var value := sampler.NextIndex();
      assert value == Next(before, draws[i]).result && Systematic(sampler.State()) == Next(before, draws[i]).state;
      if value == END {
        break;
      }
      if value != SKIP {
        result := result + [target[i]];
      }
      i := i + 1;
    }
  }

  /** The `sample` helper of the Bernoulli tests; `below[i]` is the draw of row i. */
  method SampleBernoulli<T>(sampler: BS.BernoulliSampler, target: seq<T>, below: seq<bool>) returns (result: seq<T>)
    requires sampler.Valid() && |below| == |target|
    modifies sampler
    ensures sampler.Valid()
    ensures Bernoulli(sampler.State()) == DrivenState(Bernoulli(old(sampler.State())), seq(|target|, i requires 0 <= i < |target| => Draw(below[i], 0)))
    ensures result == AppendDrive(Bernoulli(old(sampler.State())), target,
                                  seq(|target|, i requires 0 <= i < |target| => Draw(below[i], 0)))
  {
    ghost var s0 := Bernoulli(sampler.State());
    ghost var draws := seq(|target|, i requires 0 <= i < |target| => Draw(below[i], 0));
    result := [];
    var i := 0;
    while i < |target|
      invariant 0 <= i <= |target| && sampler.Valid()
      invariant DrivenState(s0, draws) == DrivenState(Bernoulli(sampler.State()), draws[i..])
      invariant AppendDrive(s0, target, draws) == AppendFrom(Bernoulli(sampler.State()), target[i..], draws[i..], result)
    {
      ghost var before := Bernoulli(sampler.State());
      assert target[i..][1..] == target[i + 1..] && draws[i..][1..] == draws[i + 1..];
      var value := sampler.NextIndex(below[i]);
      assert value == Next(before, draws[i]).result && Bernoulli(sampler.State()) == Next(before, draws[i]).state;
      if value == END {
        break;
      }
      if value != SKIP {
        result := result + [target[i]];
      }
      i := i + 1;
    }
  }

  /** The `sample` helper of the Reservoir tests: a result equal to the sample's size appends
      the row, any other slot is overwritten; `picks[i]` is the draw of row i. */
  method SampleReservoir<T>(sampler: RS.ReservoirSampler, target: seq<T>, picks: seq<nat>) returns (result: Outcome<T>)
    requires sampler.Valid() && |picks| == |target|
    modifies sampler
    ensures sampler.Valid()
    ensures result.Sampled? ==> Reservoir(sampler.State()) == DrivenState(Reservoir(old(sampler.State())), seq(|target|, i requires 0 <= i < |target| => Draw(false, picks[i])))
    ensures result == OverwriteDrive(Reservoir(old(sampler.State())), target,
                                     seq(|target|, i requires 0 <= i < |target| => Draw(false, picks[i])))
  {
    ghost var s0 := Reservoir(sampler.State());
    ghost var draws := seq(|target|, i requires 0 <= i < |target| => Draw(false, picks[i]));
    var sample: seq<T> := [];
    var i := 0;
    while i < |target|
      invariant 0 <= i <= |target| && sampler.Valid()
      invariant DrivenState(s0, draws) == DrivenState(Reservoir(sampler.State()), draws[i..])
      invariant OverwriteDrive(s0, target, draws) == OverwriteFrom(Reservoir(sampler.State()), target[i..], draws[i..], sample)
    {
      ghost var before := Reservoir(sampler.State());
      assert target[i..][1..] == target[i + 1..] && draws[i..][1..] == draws[i + 1..];
      var value := sampler.NextIndex(picks[i]);
      assert value == Next(before, draws[i]).result && Reservoir(sampler.State()) == Next(before, draws[i]).state;
      if value == END {
        break;
      }
      if value != SKIP {
        if value == |sample| {
          sample := sample + [target[i]];
        } else if 0 <= value < |sample| {
          sample := sample[value := target[i]];
        } else {
          return IndexOutOfBounds;
        }
      }
      i := i + 1;
    }
    return Sampled(sample);
  }

  // ---------------- Systematic test cases ----------------

  /** With step k over the list 0..n-1 the i-th sampled row is i * k. */
  lemma {:induction false} SystematicOverRange(stepSize: Number, n: nat, draws: seq<Draw>)
    requires IntValue(stepSize) > 0 && |draws| == n
    ensures |AppendDrive(Construct(SystematicStrategy, UNBOUNDED, stepSize).value, Range(n), draws)|
            == (n + IntValue(stepSize) - 1) / IntValue(stepSize)
    ensures forall i :: 0 <= i < |AppendDrive(Construct(SystematicStrategy, UNBOUNDED, stepSize).value, Range(n), draws)|
              ==> AppendDrive(Construct(SystematicStrategy, UNBOUNDED, stepSize).value, Range(n), draws)[i]
                  == i * IntValue(stepSize)
  {
    SystematicRuns.Sample(UNBOUNDED, stepSize, Range(n), draws);
  }

  /** Step 11 over the 100 rows 0..99 keeps rows 0, 11, ..., 99. The row count is a
      parameter pinned to 100 rather than a literal so that the proof does not unfold
      `Range(100)` element by element. */
  lemma {:induction false} SystematicBasicSampling(n: nat, draws: seq<Draw>)
    requires n == 100 && |draws| == n
    ensures AppendDrive(Construct(SystematicStrategy, UNBOUNDED, 11.0).value, Range(n), draws)
            == [0, 11, 22, 33, 44, 55, 66, 77, 88, 99]
  {
    IntValueOfInteger(11);
    SystematicOverRange(11.0, n, draws);
    var ys := AppendDrive(Construct(SystematicStrategy, UNBOUNDED, 11.0).value, Range(n), draws);
    assert |ys| == 10;
    forall i | 0 <= i < 10 ensures ys[i] == [0, 11, 22, 33, 44, 55, 66, 77, 88, 99][i] {
      assert ys[i] == i * 11;
    }
  }

  /** Step 100 over 10 rows, and over 100 rows, keeps only the first row. */
  lemma {:induction false} SystematicStepCoversList(n: nat, draws: seq<Draw>)
    requires (n == 10 || n == 100) && |draws| == n
    ensures AppendDrive(Construct(SystematicStrategy, UNBOUNDED, 100.0).value, Range(n), draws) == [0]
  {
    IntValueOfInteger(100);
    SystematicRuns.StepCoversRows(100.0, Range(n), draws);
  }

  /** Step 0 and step -1 are rejected. */
  lemma {:induction false} SystematicRejectsStep()
    ensures SS.Create(UNBOUNDED, 0.0).Err? && SS.Create(UNBOUNDED, -1.0).Err?
  {
    IntValueOfInteger(0);
    IntValueOfInteger(-1);
  }

  lemma {:induction false} SystematicEmptyList()
    ensures AppendDrive<int>(Construct(SystematicStrategy, UNBOUNDED, 10.0).value, [], []) == []
  {
    IntValueOfInteger(10);
  }

  // ---------------- Bernoulli test cases ----------------

  /** At 10%, the sample of 0..99 holds only list elements and no duplicates, whatever the draws. */
  lemma {:induction false} BernoulliBasicSampling(draws: seq<Draw>)
    requires |draws| == 100
    ensures forall y :: y in AppendDrive(Construct(BernoulliStrategy, UNBOUNDED, 0.1).value, Range(100), draws)
                        ==> y in Range(100)
    ensures Distinct(AppendDrive(Construct(BernoulliStrategy, UNBOUNDED, 0.1).value, Range(100), draws))
  {
    var a := Construct(BernoulliStrategy, UNBOUNDED, 0.1).value;
    AppendDriveSubset(a, Range(100), draws);
    RangeDistinct(100);
    AppendDriveDistinct(a, Range(100), draws);
  }

  lemma {:induction false} BernoulliPercentageZero(draws: seq<Draw>)
    requires |draws| == 10
    ensures AppendDrive(Construct(BernoulliStrategy, UNBOUNDED, 0.0).value, Range(10), draws) == []
  {
    BernoulliRuns.Sample(UNBOUNDED, 0.0, Range(10), draws);
  }

  lemma {:induction false} BernoulliPercentageHundred(draws: seq<Draw>)
    requires |draws| == 100
    ensures AppendDrive(Construct(BernoulliStrategy, UNBOUNDED, 1.0).value, Range(100), draws) == Range(100)
  {
    BernoulliRuns.SampleAll(UNBOUNDED, Range(100), draws);
  }

  /** -1% and 500% are rejected. */
  lemma BernoulliRejectsPercentage()
    ensures BS.Create(UNBOUNDED, -0.01).Err? && BS.Create(UNBOUNDED, 5.0).Err?
  {
  }

  lemma BernoulliEmptyList()
    ensures AppendDrive<int>(Construct(BernoulliStrategy, UNBOUNDED, 0.1).value, [], []) == []
  {
  }

  // ---------------- Reservoir test cases ----------------

  /** Size 10 over 0..99: ten list elements, no duplicates, whatever the draws. */
  lemma {:induction false} ReservoirBasicSampling(draws: seq<Draw>)
    requires |draws| == 100
    ensures OverwriteDrive(Construct(ReservoirStrategy, UNBOUNDED, 10.0).value, Range(100), draws).Sampled?
    ensures |OverwriteDrive(Construct(ReservoirStrategy, UNBOUNDED, 10.0).value, Range(100), draws).sample| == 10
    ensures forall y :: y in OverwriteDrive(Construct(ReservoirStrategy, UNBOUNDED, 10.0).value, Range(100), draws).sample
                        ==> y in Range(100)
    ensures Distinct(OverwriteDrive(Construct(ReservoirStrategy, UNBOUNDED, 10.0).value, Range(100), draws).sample)
  {
    IntValueOfInteger(10);
    RangeDistinct(100);
    ReservoirRuns.Sample(UNBOUNDED, 10.0, Range(100), draws);
  }

  /** A reservoir of 100 over 10 rows, and of 10 over 10 rows, returns the list itself. */
  lemma {:induction false} ReservoirListFits(size: nat, draws: seq<Draw>)
    requires (size == 100 || size == 10) && |draws| == 10
    ensures OverwriteDrive(Construct(ReservoirStrategy, UNBOUNDED, size as real).value, Range(10), draws)
            == Sampled(Range(10))
  {
    IntValueOfInteger(size);
    ReservoirRuns.Sample(UNBOUNDED, size as real, Range(10), draws);
  }

  lemma {:induction false} ReservoirSizeZero(draws: seq<Draw>)
    requires |draws| == 10
    ensures OverwriteDrive(Construct(ReservoirStrategy, UNBOUNDED, 0.0).value, Range(10), draws) == Sampled([])
  {
    IntValueOfInteger(0);
    ReservoirRuns.Sample(UNBOUNDED, 0.0, Range(10), draws);
  }

  /** Size -1 is rejected; a fractional size above -1 truncates to 0 and is accepted. */
  lemma {:induction false} ReservoirRejectsSize()
    ensures RS.Create(UNBOUNDED, -1.0).Err?
    ensures RS.Create(UNBOUNDED, -0.5).Ok? && RS.Create(UNBOUNDED, -0.5).value.reservoirSize == 0
  {
    IntValueOfInteger(-1);
  }

  lemma {:induction false} ReservoirEmptyList()
    ensures OverwriteDrive<int>(Construct(ReservoirStrategy, UNBOUNDED, 10.0).value, [], []) == Sampled([])
  {
    IntValueOfInteger(10);
  }
}
