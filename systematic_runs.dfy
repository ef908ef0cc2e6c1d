/** What successive calls of SystematicSampler return, and the sample the append-only driver builds. */
module SystematicRuns {
  import opened Sampler
  import opened Seqs
  import opened Samplers
  import SS = SystematicSampling

  lemma {:induction false} MulAtLeast(d: int, k: int)
    requires k > 0
    ensures d >= 1 ==> d * k >= k
    ensures d <= -1 ==> d * k <= -k
  {
    if d >= 1 {
      assert d * k == (d - 1) * k + k;
    } else if d <= -1 {
      assert d * k == (d + 1) * k - k;
    }
  }

  lemma {:induction false} DivModUnique(x: int, k: int, q: int, r: int)
    requires k > 0 && 0 <= r < k && x == q * k + r
    ensures x / k == q && x % k == r
  {
    var q', r' := x / k, x % k;
    assert x == q' * k + r';
    MulAtLeast(q - q', k);
    assert (q - q') * k == r' - r;
  }

  /** How the number of multiples of k below m grows with m. */
  lemma {:induction false} CeilStep(m: int, k: int)
    requires m >= 0 && k > 0
    ensures (m + k) / k == (m + k - 1) / k + (if m % k == 0 then 1 else 0)
    ensures m % k == 0 ==> (m + k - 1) / k == m / k && (m / k) * k == m
  {
    var q, r := m / k, m % k;
    assert m == q * k + r;
    DivModUnique(m + k, k, q + 1, r);
    if r == 0 {
      DivModUnique(m + k - 1, k, q, k - 1);
    } else {
      DivModUnique(m + k - 1, k, q + 1, r - 1);
    }
  }

  /** The index of a state counts the selected calls among those made so far, unless the
      limit has already been reached. */
  predicate Counted(s: SS.SystematicState)
    requires s.stepSize > 0
  {
    (s.limitLines > 0 && s.count >= s.limitLines) || s.index == (s.count + s.stepSize - 1) / s.stepSize
  }

  /** Call j from state s is call number s.count + j + 1: END once that number reaches a
      positive limit, otherwise the output position (s.count + j) / stepSize when it falls on
      the step, and SKIP when it does not. */
  lemma {:induction false} ResultsFrom(s: SS.SystematicState, draws: seq<Draw>)
    requires SS.WellFormed(s) && Counted(s)
    ensures forall j :: 0 <= j < |draws| ==>
      Run(Systematic(s), draws).results[j]
      == (if s.limitLines > 0 && s.count + j + 1 >= s.limitLines then END
          else if (s.count + j) % s.stepSize == 0 then (s.count + j) / s.stepSize
          else SKIP)
    decreases |draws|
  {
    if draws != [] {
      var st := SS.Next(s);
      CeilStep(s.count, s.stepSize);
      assert Counted(st.state);
      ResultsFrom(st.state, draws[1..]);
      assert Run(Systematic(s), draws).results == [st.result] + Run(Systematic(st.state), draws[1..]).results;
    }
  }

  /** Every call counts itself, including those that return END. */
  lemma {:induction false} CountAfter(s: SS.SystematicState, draws: seq<Draw>)
    requires SS.WellFormed(s)
    ensures var t := Run(Systematic(s), draws).state;
      t.Systematic? && t.s.count == s.count + |draws| && t.s.stepSize == s.stepSize
    decreases |draws|
  {
    if draws != [] {
      CountAfter(SS.Next(s).state, draws[1..]);
    }
  }

  /** Selected calls return the output positions s.index, s.index + 1, ... without gaps. */
  lemma {:induction false} Gapless(s: SS.SystematicState, draws: seq<Draw>)
    requires SS.WellFormed(s)
    ensures GaplessFrom(Run(Systematic(s), draws).results, s.index)
    decreases |draws|
  {
    if draws != [] {
      var st := SS.Next(s);
      Gapless(st.state, draws[1..]);
      assert Run(Systematic(s), draws).results == [st.result] + Run(Systematic(st.state), draws[1..]).results;
    }
  }

  /** Selecting the positions below e that are multiples of k keeps ceil(e / k) elements. */
  lemma {:induction false} SelectEveryKthLength<T>(xs: seq<T>, mask: seq<bool>, k: int, e: nat)
    requires k > 0 && |mask| == |xs| && e <= |xs|
    requires forall j :: 0 <= j < |mask| ==> mask[j] == (j < e && j % k == 0)
    ensures |Select(xs, mask)| == (e + k - 1) / k
    decreases |xs|
  {
    var n := |xs|;
    if n == 0 {
      DivModUnique(k - 1, k, 0, k - 1);
    } else {
      SelectSnoc(xs, mask);
      if e == n {
        SelectEveryKthLength(xs[..n - 1], mask[..n - 1], k, n - 1);
        CeilStep(n - 1, k);
      } else {
        SelectEveryKthLength(xs[..n - 1], mask[..n - 1], k, e);
      }
    }
  }

  /** ... and they are xs[0], xs[k], xs[2k], ... */
  lemma {:induction false} SelectEveryKth<T>(xs: seq<T>, mask: seq<bool>, k: int, e: nat)
    requires k > 0 && |mask| == |xs| && e <= |xs|
    requires forall j :: 0 <= j < |mask| ==> mask[j] == (j < e && j % k == 0)
    ensures forall i :: 0 <= i < |Select(xs, mask)| ==> i * k < e && Select(xs, mask)[i] == xs[i * k]
    decreases |xs|
  {
    var n := |xs|;
    if n > 0 {
      var xs', m' := xs[..n - 1], mask[..n - 1];
      var e' := if e == n then n - 1 else e;
      SelectSnoc(xs, mask);
      SelectEveryKth(xs', m', k, e');
      var ys, ys' := Select(xs, mask), Select(xs', m');
      if mask[n - 1] {
        SelectEveryKthLength(xs', m', k, n - 1);
        CeilStep(n - 1, k);
      }
      forall i | 0 <= i < |ys| ensures i * k < e && ys[i] == xs[i * k] {
        if i < |ys'| {
          assert ys[i] == ys'[i] && i * k < e';
        } else {
          assert i == |ys'| && ys[i] == xs[n - 1];
        }
      }
    }
  }

  /** The number of rows a systematic sampler examines: a positive limit L stops it at call L,
      so it examines at most L - 1 rows. */
  function Examined(limit: int, n: nat): (e: nat)
    ensures e <= n
  {
    if limit > 0 && limit - 1 < n then limit - 1 else n
  }

  /** From a fresh sampler the first END comes at call `Examined(limit, n)`: a positive
      limit L lets the first L - 1 rows through and stops the L-th; with no positive limit
      no call returns END. */
  lemma {:induction false} FirstEndIsExamined(s: SS.SystematicState, draws: seq<Draw>)
    requires SS.WellFormed(s) && s.count == 0 && s.index == 0
    ensures FirstEnd(Run(Systematic(s), draws).results) == Examined(s.limitLines, |draws|)
  {
    var k := s.stepSize;
    var rs := Run(Systematic(s), draws).results;
    var e := Examined(s.limitLines, |draws|);
    DivModUnique(k - 1, k, 0, k - 1);
    ResultsFrom(s, draws);
    forall j | 0 <= j < e ensures rs[j] != END {
      if j % k == 0 {
        assert rs[j] == j / k;
        MulAtLeast(j / k, k);
      }
    }
    FirstEndAt(rs, e);
  }

  /** From a fresh sampler the driver keeps exactly the rows j < e with j a multiple of the
      step, where e is the number of rows examined. */
  lemma {:induction false} FreshMask(s: SS.SystematicState, draws: seq<Draw>)
    requires SS.WellFormed(s) && s.count == 0 && s.index == 0
    ensures forall j :: 0 <= j < |draws| ==>
      KeepMask(Run(Systematic(s), draws).results)[j] == (j < Examined(s.limitLines, |draws|) && j % s.stepSize == 0)
  {
    var k := s.stepSize;
    var rs := Run(Systematic(s), draws).results;
    var e := Examined(s.limitLines, |draws|);
    DivModUnique(k - 1, k, 0, k - 1);
    ResultsFrom(s, draws);
    forall j | 0 <= j < |rs| ensures (rs[j] == END <==> j >= e) && (rs[j] == SKIP <==> j < e && j % k != 0) {
      if j < e && j % k == 0 {
        assert rs[j] == j / k;
        assert (j / k) * k == j;
        MulAtLeast(j / k, k);
      }
    }
    FirstEndAt(rs, e);
    var mask := KeepMask(rs);
    forall j | 0 <= j < |draws| ensures mask[j] == (j < e && j % k == 0) {
      assert mask[j] == (j < e && rs[j] != SKIP);
    }
  }

  /** With step k the driver keeps rows 0, k, 2k, ... among the rows it examines. */
  lemma {:induction false} Sample<T>(limit: int, stepSize: Number, rows: seq<T>, draws: seq<Draw>)
    requires IntValue(stepSize) > 0 && |draws| == |rows|
    ensures |AppendDrive(Construct(SystematicStrategy, limit, stepSize).value, rows, draws)|
            == (Examined(limit, |rows|) + IntValue(stepSize) - 1) / IntValue(stepSize)
    ensures forall i :: 0 <= i < |AppendDrive(Construct(SystematicStrategy, limit, stepSize).value, rows, draws)| ==>
              i * IntValue(stepSize) < Examined(limit, |rows|)
              && AppendDrive(Construct(SystematicStrategy, limit, stepSize).value, rows, draws)[i]
                 == rows[i * IntValue(stepSize)]
  {
    var s := SS.Create(limit, stepSize).value;
    var mask := KeepMask(Run(Systematic(s), draws).results);
    FreshMask(s, draws);
    SelectEveryKthLength(rows, mask, s.stepSize, Examined(limit, |rows|));
    SelectEveryKth(rows, mask, s.stepSize, Examined(limit, |rows|));
    AppendDriveSelects(Systematic(s), rows, draws, []);
  }

  /** A step at least the number of rows keeps only the first row. */
  lemma {:induction false} StepCoversRows<T>(stepSize: Number, rows: seq<T>, draws: seq<Draw>)
    requires 1 <= |rows| <= IntValue(stepSize) && |draws| == |rows|
    ensures AppendDrive(Construct(SystematicStrategy, UNBOUNDED, stepSize).value, rows, draws) == [rows[0]]
  {
    var k := IntValue(stepSize);
    Sample(UNBOUNDED, stepSize, rows, draws);
    DivModUnique(|rows| + k - 1, k, 1, |rows| - 1);
  }
}
