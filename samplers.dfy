/** The four strategies behind one interface: construction from a (limit, parameter) pair,
    the `nextIndex` dispatch, runs of successive calls, and the two row-iteration drivers
    (append-only, and append-or-overwrite) as functions of the rows and the draws. */
module Samplers {
  import opened Sampler
  import opened Seqs
  import DS = DefaultSampling
  import SS = SystematicSampling
  import BS = BernoulliSampling
  import RS = ReservoirSampling

  /** A registered sampler class. */
  datatype Strategy = DefaultStrategy | SystematicStrategy | BernoulliStrategy | ReservoirStrategy

  /** A constructed sampler of any strategy. */
  datatype AnySampler =
    | Default(d: DS.DefaultState)
    | Systematic(s: SS.SystematicState)
    | Bernoulli(b: BS.BernoulliState)
    | Reservoir(r: RS.ReservoirState)

  predicate WellFormed(a: AnySampler) {
    match a
    case Default(d) => DS.WellFormed(d)
    case Systematic(s) => SS.WellFormed(s)
    case Bernoulli(b) => BS.WellFormed(b)
    case Reservoir(r) => RS.WellFormed(r)
  }

  function StrategyOf(a: AnySampler): Strategy {
    match a
    case Default(_) => DefaultStrategy
    case Systematic(_) => SystematicStrategy
    case Bernoulli(_) => BernoulliStrategy
    case Reservoir(_) => ReservoirStrategy
  }

  function LimitLines(a: AnySampler): int {
    match a
    case Default(d) => d.limitLines
    case Systematic(s) => s.limitLines
    case Bernoulli(b) => b.limitLines
    case Reservoir(r) => r.limitLines
  }

  /** The parameter domain each strategy's constructor enforces. */
  function ParameterAccepted(strategy: Strategy, factor: Number): (ok: bool)
    ensures strategy == DefaultStrategy ==> ok
    ensures strategy == SystematicStrategy ==> forall limit :: ok <==> SS.Create(limit, factor).Ok?
    ensures strategy == BernoulliStrategy ==> forall limit :: ok <==> BS.Create(limit, factor).Ok?
    ensures strategy == ReservoirStrategy ==> forall limit :: ok <==> RS.Create(limit, factor).Ok?
  {
    match strategy
    case DefaultStrategy => true
    case SystematicStrategy => IntValue(factor) > 0
    case BernoulliStrategy => 0.0 <= factor <= 1.0
    case ReservoirStrategy => IntValue(factor) >= 0
  }

  /** Calling the `(limit, parameter)` constructor of a strategy. The limit is stored as
      given and never validated; only the parameter can make construction fail. */
  function Construct(strategy: Strategy, limit: int, factor: Number): (r: Result<AnySampler>)
    ensures r.Ok? <==> ParameterAccepted(strategy, factor)
    ensures r.Ok? ==> WellFormed(r.value) && StrategyOf(r.value) == strategy && LimitLines(r.value) == limit
  {
    match strategy
    case DefaultStrategy => Ok(Default(DS.Create(limit, factor)))
    case SystematicStrategy =>
      var c := SS.Create(limit, factor);
      if c.Ok? then Ok(Systematic(c.value)) else Err(c.error)
    case BernoulliStrategy =>
      var c := BS.Create(limit, factor);
      if c.Ok? then Ok(Bernoulli(c.value)) else Err(c.error)
    case ReservoirStrategy =>
      var c := RS.Create(limit, factor);
      if c.Ok? then Ok(Reservoir(c.value)) else Err(c.error)
  }

  /** `nextIndex()` of whichever strategy `a` is, consuming the part of `d` that strategy uses. */
  function Next(a: AnySampler, d: Draw): (r: Step<AnySampler>)
    requires WellFormed(a)
    ensures WellFormed(r.state) && IsResult(r.result)
    ensures StrategyOf(r.state) == StrategyOf(a) && LimitLines(r.state) == LimitLines(a)
  {
    match a
    case Default(s) => var st := DS.Next(s); Step(Default(st.state), st.result)
    case Systematic(s) => var st := SS.Next(s); Step(Systematic(st.state), st.result)
    case Bernoulli(s) => var st := BS.Next(s, d.below); Step(Bernoulli(st.state), st.result)
    case Reservoir(s) => var st := RS.Next(s, d.pick); Step(Reservoir(st.state), st.result)
  }

  /** The state after a run of calls, and the result of each call. */
  datatype Trace = Trace(state: AnySampler, results: seq<int>)

  /** One call per draw, in order, without stopping at END. */
  function Run(a: AnySampler, draws: seq<Draw>): (t: Trace)
    requires WellFormed(a)
    ensures WellFormed(t.state) && |t.results| == |draws|
    ensures StrategyOf(t.state) == StrategyOf(a) && LimitLines(t.state) == LimitLines(a)
    ensures forall j :: 0 <= j < |draws| ==> IsResult(t.results[j])
    decreases |draws|
  {
    if draws == [] then Trace(a, [])
    else
      var st := Next(a, draws[0]);
      var rest := Run(st.state, draws[1..]);
      Trace(rest.state, [st.result] + rest.results)
  }

  /** The draws of `n` calls to a strategy that draws nothing. */
  function NoDraws(n: nat): (ds: seq<Draw>)
    ensures |ds| == n
  {
    seq(n, _ => NoDraw)
  }

  // ---------------- the append-only driver ----------------

  /** The append-only driver from row 0 on (`acc` is what it has collected so far): one call
      per row; END stops it; any other non-SKIP result appends the current row. */
  function AppendFrom<T>(a: AnySampler, rows: seq<T>, draws: seq<Draw>, acc: seq<T>): (r: seq<T>)
    requires WellFormed(a) && |draws| == |rows|
    ensures |acc| <= |r| <= |acc| + |rows|
    ensures r[..|acc|] == acc
    decreases |rows|
  {
    if rows == [] then acc
    else
      var st := Next(a, draws[0]);
      if st.result == END then acc
      else AppendFrom(st.state, rows[1..], draws[1..], if st.result != SKIP then acc + [rows[0]] else acc)
  }

  function AppendDrive<T>(a: AnySampler, rows: seq<T>, draws: seq<Draw>): (r: seq<T>)
    requires WellFormed(a) && |draws| == |rows|
    ensures |r| <= |rows|
  {
    AppendFrom(a, rows, draws, [])
  }

  /** The position of the first END among the results, or their number if there is none. */
  function FirstEnd(rs: seq<int>): (e: nat)
    ensures e <= |rs|
    ensures forall j :: 0 <= j < e ==> rs[j] != END
    ensures e < |rs| ==> rs[e] == END
  {
    if rs == [] || rs[0] == END then 0 else 1 + FirstEnd(rs[1..])
  }

  /** The rows a driver keeps: those before the first END whose result is not SKIP. */
  function KeepMask(rs: seq<int>): seq<bool> {
    seq(|rs|, j requires 0 <= j < |rs| => j < FirstEnd(rs) && rs[j] != SKIP)
  }

  /** The first END fixes `FirstEnd`. */
  lemma FirstEndAt(rs: seq<int>, e: nat)
    requires e <= |rs|
    requires forall j :: 0 <= j < e ==> rs[j] != END
    requires e < |rs| ==> rs[e] == END
    ensures FirstEnd(rs) == e
  {
  }

  lemma {:induction false} KeepMaskCons(r0: int, tail: seq<int>)
    requires r0 != END
    ensures KeepMask([r0] + tail) == [r0 != SKIP] + KeepMask(tail)
  {
    var rs := [r0] + tail;
    assert rs[1..] == tail;
    assert FirstEnd(rs) == 1 + FirstEnd(tail);
    var m, m' := KeepMask(rs), [r0 != SKIP] + KeepMask(tail);
    forall j | 0 <= j < |rs| ensures m[j] == m'[j] {
      if j > 0 {
        assert rs[j] == tail[j - 1];
      }
    }
    assert m == m';
  }

  lemma {:induction false} KeepMaskAllOff(rs: seq<int>)
    requires rs != [] && rs[0] == END
    ensures forall j :: 0 <= j < |rs| ==> !KeepMask(rs)[j]
  {
    assert FirstEnd(rs) == 0;
  }

  lemma ConcatAssoc<T>(xs: seq<T>, ys: seq<T>, zs: seq<T>)
    ensures (xs + ys) + zs == xs + (ys + zs)
  {
  }

  /** The append-only driver builds the subsequence of the rows picked by the results:
      rows before the first END whose call did not return SKIP, in input order. */
  lemma {:induction false} AppendDriveSelects<T>(a: AnySampler, rows: seq<T>, draws: seq<Draw>, acc: seq<T>)
    requires WellFormed(a) && |draws| == |rows|
    ensures AppendFrom(a, rows, draws, acc) == acc + Select(rows, KeepMask(Run(a, draws).results))
    decreases |rows|
  {
    var rs := Run(a, draws).results;
    if rows == [] {
      assert Select(rows, KeepMask(rs)) == [];
    } else {
      var st := Next(a, draws[0]);
      var tail := Run(st.state, draws[1..]).results;
      assert rs == [st.result] + tail;
      if st.result == END {
        KeepMaskAllOff(rs);
        SelectPrefix(rows, KeepMask(rs), 0);
        assert AppendFrom(a, rows, draws, acc) == acc;
      } else {
        var head := if st.result != SKIP then [rows[0]] else [];
        var next := if st.result != SKIP then acc + [rows[0]] else acc;
        assert next == acc + head;
        assert AppendFrom(a, rows, draws, acc) == AppendFrom(st.state, rows[1..], draws[1..], next);
        AppendDriveSelects(st.state, rows[1..], draws[1..], next);
        KeepMaskCons(st.result, tail);
        var mask := KeepMask(rs);
        assert mask[0] == (st.result != SKIP) && mask[1..] == KeepMask(tail);
        var rest := Select(rows[1..], KeepMask(tail));
        assert Select(rows, mask) == head + rest;
        ConcatAssoc(acc, head, rest);
      }
    }
  }

  /** Every row the append-only driver returns is one of its input rows. */
  lemma {:induction false} AppendDriveSubset<T>(a: AnySampler, rows: seq<T>, draws: seq<Draw>)
    requires WellFormed(a) && |draws| == |rows|
    ensures forall y :: y in AppendDrive(a, rows, draws) ==> y in rows
  {
    AppendDriveSelects(a, rows, draws, []);
    SelectSubset(rows, KeepMask(Run(a, draws).results));
  }

  /** Distinct input rows give a sample without duplicates. */
  lemma {:induction false} AppendDriveDistinct<T>(a: AnySampler, rows: seq<T>, draws: seq<Draw>)
    requires WellFormed(a) && |draws| == |rows| && Distinct(rows)
    ensures Distinct(AppendDrive(a, rows, draws))
  {
    AppendDriveSelects(a, rows, draws, []);
    SelectDistinct(rows, KeepMask(Run(a, draws).results));
  }

  /** Once a call returns END the driver reads no further row: two inputs that agree before
      the first END yield the same sample. */
  lemma {:induction false} AppendDriveStopsAtEnd<T>(a: AnySampler, rows: seq<T>, other: seq<T>, draws: seq<Draw>)
    requires WellFormed(a) && |draws| == |rows| == |other|
    requires rows[..FirstEnd(Run(a, draws).results)] == other[..FirstEnd(Run(a, draws).results)]
    ensures AppendDrive(a, rows, draws) == AppendDrive(a, other, draws)
  {
    var rs := Run(a, draws).results;
    var e := FirstEnd(rs);
    AppendDriveSelects(a, rows, draws, []);
    AppendDriveSelects(a, other, draws, []);
    SelectUpTo(rows, KeepMask(rs), e);
    SelectUpTo(other, KeepMask(rs), e);
  }

  // ---------------- the append-or-overwrite driver ----------------

  /** What the append-or-overwrite driver leaves: the sample, or the exception `List.set`
      throws for a slot outside the list. */
  datatype Outcome<T> = Sampled(sample: seq<T>) | IndexOutOfBounds

  /** The append-or-overwrite driver: a result equal to the sample's size appends the row,
      a smaller one overwrites that slot. */
  function OverwriteFrom<T>(a: AnySampler, rows: seq<T>, draws: seq<Draw>, acc: seq<T>): (r: Outcome<T>)
    requires WellFormed(a) && |draws| == |rows|
    ensures r.Sampled? ==> |acc| <= |r.sample| <= |acc| + |rows|
    decreases |rows|
  {
    if rows == [] then Sampled(acc)
    else
      var st := Next(a, draws[0]);
      if st.result == END then Sampled(acc)
      else if st.result == SKIP then OverwriteFrom(st.state, rows[1..], draws[1..], acc)
      else if st.result == |acc| then OverwriteFrom(st.state, rows[1..], draws[1..], acc + [rows[0]])
      else if 0 <= st.result < |acc| then OverwriteFrom(st.state, rows[1..], draws[1..], acc[st.result := rows[0]])
      else IndexOutOfBounds
  }

  function OverwriteDrive<T>(a: AnySampler, rows: seq<T>, draws: seq<Draw>): (r: Outcome<T>)
    requires WellFormed(a) && |draws| == |rows|
    ensures r.Sampled? ==> |r.sample| <= |rows|
  {
    OverwriteFrom(a, rows, draws, [])
  }

  // ---------------- the sampler a driver leaves behind ----------------

  /** The sampler's state when a driver stops: just after the call that returned END, or
      after the call for the last row. */
  function DrivenState(a: AnySampler, draws: seq<Draw>): (t: AnySampler)
    requires WellFormed(a)
    ensures WellFormed(t) && StrategyOf(t) == StrategyOf(a) && LimitLines(t) == LimitLines(a)
    decreases |draws|
  {
    if draws == [] then a
    else
      var st := Next(a, draws[0]);
      if st.result == END then st.state else DrivenState(st.state, draws[1..])
  }

  /** The number of calls a driver makes: up to and including the first END, or all of them. */
  function Consumed(rs: seq<int>): (n: nat)
    ensures n <= |rs|
  {
    if FirstEnd(rs) < |rs| then FirstEnd(rs) + 1 else |rs|
  }

  /** A driver leaves the sampler in the state a run of exactly the calls it made ends in. */
  lemma {:induction false} DrivenStateIsRun(a: AnySampler, draws: seq<Draw>)
    requires WellFormed(a)
    ensures DrivenState(a, draws) == Run(a, draws[..Consumed(Run(a, draws).results)]).state
    decreases |draws|
  {
    if draws != [] {
      var st := Next(a, draws[0]);
      var rs, tail := Run(a, draws).results, Run(st.state, draws[1..]).results;
      assert rs == [st.result] + tail;
      var n := Consumed(rs);
      var pre := draws[..n];
      if st.result == END {
        assert FirstEnd(rs) == 0 && n == 1;
        assert pre[0] == draws[0] && pre[1..] == [];
        assert Run(a, pre).state == Run(st.state, []).state;
      } else {
        assert rs[1..] == tail;
        assert FirstEnd(rs) == 1 + FirstEnd(tail);
        assert n == 1 + Consumed(tail);
        DrivenStateIsRun(st.state, draws[1..]);
        assert pre[0] == draws[0] && pre[1..] == draws[1..][..Consumed(tail)];
      }
    }
  }

  /** The non-negative results are base, base+1, base+2, ... in order: every kept row is
      appended, none overwrites. */
  predicate GaplessFrom(rs: seq<int>, base: int)
    decreases |rs|
  {
    rs == [] || (if rs[0] >= 0 then rs[0] == base && GaplessFrom(rs[1..], base + 1) else GaplessFrom(rs[1..], base))
  }

  /** On a gapless run the two drivers agree. */
  lemma {:induction false} GaplessOverwriteIsAppend<T>(a: AnySampler, rows: seq<T>, draws: seq<Draw>, acc: seq<T>)
    requires WellFormed(a) && |draws| == |rows|
    requires GaplessFrom(Run(a, draws).results, |acc|)
    ensures OverwriteFrom(a, rows, draws, acc) == Sampled(AppendFrom(a, rows, draws, acc))
    decreases |rows|
  {
    if rows != [] {
      var st := Next(a, draws[0]);
      var tail := Run(st.state, draws[1..]).results;
      assert Run(a, draws).results == [st.result] + tail;
      if st.result != END {
        if st.result >= 0 {
          GaplessOverwriteIsAppend(st.state, rows[1..], draws[1..], acc + [rows[0]]);
        } else {
          GaplessOverwriteIsAppend(st.state, rows[1..], draws[1..], acc);
        }
      }
    }
  }
}
