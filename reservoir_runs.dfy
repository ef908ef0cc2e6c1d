/** What successive calls of ReservoirSampler return, and the sample the append-or-overwrite
    driver builds. */
module ReservoirRuns {
  import opened Sampler
  import opened Seqs
  import opened Samplers
  import RS = ReservoirSampling

  /** What a reservoir of size k answers for the row at 0-based position c: END for size 0;
      slot c while c < k; after that the draw nextInt(c), whose bound is at least k >= 1, as
      the slot to overwrite when it is below k, or SKIP. */
  function ResultAt(k: int, c: int, pick: nat): (r: int)
    requires k >= 0 && c >= 0
    ensures IsResult(r)
    ensures r == END <==> k == 0
    ensures k > 0 && c < k ==> r == c
    ensures r >= 0 ==> r < k && r <= c
  {
    if k == 0 then END
    else if c < k then c
    else if NextInt(c, pick) < k then NextInt(c, pick)
    else SKIP
  }

  /** Call j from state s handles the row at position s.count + 1 + j. */
  lemma {:induction false} ResultsFrom(s: RS.ReservoirState, draws: seq<Draw>)
    requires RS.WellFormed(s)
    ensures forall j :: 0 <= j < |draws| ==>
      Run(Reservoir(s), draws).results[j] == ResultAt(s.reservoirSize, s.count + 1 + j, draws[j].pick)
    decreases |draws|
  {
    if draws != [] {
      var st := RS.Next(s, draws[0].pick);
      assert st.result == ResultAt(s.reservoirSize, s.count + 1, draws[0].pick);
      ResultsFrom(st.state, draws[1..]);
      var rs, tail := Run(Reservoir(s), draws).results, Run(Reservoir(st.state), draws[1..]).results;
      assert rs == [st.result] + tail;
      forall j | 1 <= j < |draws|
        ensures rs[j] == ResultAt(s.reservoirSize, s.count + 1 + j, draws[j].pick)
      {
        assert rs[j] == tail[j - 1] && draws[j] == draws[1..][j - 1];
        if s.reservoirSize > 0 {
          assert st.state.count == s.count + 1;
        }
      }
    }
  }

  /** After n calls a non-empty reservoir has seen n more rows and holds min(rows seen, size)
      filled slots; an empty one is unchanged. */
  lemma {:induction false} StateAfter(s: RS.ReservoirState, draws: seq<Draw>)
    requires RS.WellFormed(s)
    ensures Run(Reservoir(s), draws).state.Reservoir?
    ensures s.reservoirSize == 0 ==> Run(Reservoir(s), draws).state == Reservoir(s)
    ensures s.reservoirSize > 0 ==>
      Run(Reservoir(s), draws).state.r.count == s.count + |draws|
      && Run(Reservoir(s), draws).state.r.index == RS.Min(s.count + 1 + |draws|, s.reservoirSize)
    decreases |draws|
  {
    if draws != [] {
      StateAfter(RS.Next(s, draws[0].pick).state, draws[1..]);
    }
  }

  /** The row right after the fill always replaces a slot: its draw nextInt(size) is always
      below size (a draw from [0, count] would skip it with probability 1 / (size + 1)). */
  lemma {:induction false} FirstOverflowReplaces(limit: int, size: Number, draws: seq<Draw>)
    requires IntValue(size) > 0 && |draws| > IntValue(size)
    ensures 0 <= Run(Construct(ReservoirStrategy, limit, size).value, draws).results[IntValue(size)] < IntValue(size)
  {
    var k := IntValue(size);
    var s := RS.Create(limit, size).value;
    assert Construct(ReservoirStrategy, limit, size).value == Reservoir(s);
    ResultsFrom(s, draws);
    assert Run(Reservoir(s), draws).results[k] == ResultAt(k, k, draws[k].pick) == NextInt(k, draws[k].pick);
  }

  /** The limit plays no part in what a reservoir sampler returns. */
  lemma {:induction false} LimitIgnored(s: RS.ReservoirState, limit: int, draws: seq<Draw>)
    requires RS.WellFormed(s)
    ensures Run(Reservoir(s), draws).results == Run(Reservoir(s.(limitLines := limit)), draws).results
    decreases |draws|
  {
    if draws != [] {
      var st, st' := RS.Next(s, draws[0].pick), RS.Next(s.(limitLines := limit), draws[0].pick);
      assert st'.result == st.result && st'.state == st.state.(limitLines := limit);
      LimitIgnored(st.state, limit, draws[1..]);
      assert Run(Reservoir(s), draws).results == [st.result] + Run(Reservoir(st.state), draws[1..]).results;
      assert Run(Reservoir(s.(limitLines := limit)), draws).results
             == [st.result] + Run(Reservoir(st'.state), draws[1..]).results;
    }
  }

  lemma {:induction false} DistinctUpdate<T>(xs: seq<T>, i: nat, x: T)
    requires i < |xs| && Distinct(xs) && x !in xs
    ensures Distinct(xs[i := x])
  {
    var ys := xs[i := x];
    forall a, b | 0 <= a < b < |ys| ensures ys[a] != ys[b] {
      if a == i {
        assert ys[b] == xs[b];
      } else if b == i {
        assert ys[a] == xs[a];
      }
    }
  }

  lemma DistinctSnoc<T>(xs: seq<T>, x: T)
    requires Distinct(xs) && x !in xs
    ensures Distinct(xs + [x])
  {
  }

  /** Where the append-or-overwrite driver puts a row for slot r: appended when r is the
      sample's size, written over slot r otherwise. */
  function Placed<T>(acc: seq<T>, r: int, x: T): (ys: seq<T>)
    requires 0 <= r <= |acc|
    ensures |ys| == if r == |acc| then |acc| + 1 else |acc|
    ensures ys[r] == x
  {
    if r == |acc| then acc + [x] else acc[r := x]
  }

  /** Placing row c keeps the sample within the rows seen, and free of duplicates. */
  lemma {:induction false} PlacedKeeps<T>(all: seq<T>, c: nat, acc: seq<T>, r: int)
    requires c < |all| && 0 <= r <= |acc|
    requires forall y :: y in acc ==> y in all[..c]
    requires Distinct(all) ==> Distinct(acc)
    ensures forall y :: y in Placed(acc, r, all[c]) ==> y in all[..c + 1]
    ensures Distinct(all) ==> Distinct(Placed(acc, r, all[c]))
  {
    var x := all[c];
    var ys := Placed(acc, r, x);
    assert all[..c + 1] == all[..c] + [x];
    assert Distinct(all) ==> x !in all[..c];
    forall y | y in ys ensures y in all[..c + 1] {
      if y != x {
        var i :| 0 <= i < |ys| && ys[i] == y;
        assert acc[i] == y;
      }
    }
    if Distinct(all) {
      if r == |acc| {
        DistinctSnoc(acc, x);
      } else {
        DistinctUpdate(acc, r, x);
      }
    }
  }

  /** The driver invariant after c rows of `all`, for a reservoir of size k: the sample holds
      min(c, k) rows, is the prefix all[..c] while the reservoir is filling, holds only rows
      already seen, and has no duplicates when the rows are distinct. */
  predicate Filled<T(==)>(k: int, all: seq<T>, c: nat, acc: seq<T>) {
    c <= |all| && |acc| == RS.Min(c, k) && (c <= k ==> acc == all[..c])
    && (forall y :: y in acc ==> y in all[..c]) && (Distinct(all) ==> Distinct(acc))
  }

  /** The sample after the driver has handled row x with the result of `RS.Next(s, pick)`. */
  function Advance<T>(s: RS.ReservoirState, acc: seq<T>, x: T, pick: nat): seq<T>
    requires RS.WellFormed(s) && s.reservoirSize > 0 && |acc| == RS.Min(s.count + 1, s.reservoirSize)
  {
    var r := RS.Next(s, pick).result;
    if r == SKIP then acc else Placed(acc, r, x)
  }

  /** One row of the driver keeps the invariant. */
  lemma {:induction false} AdvanceKeeps<T>(s: RS.ReservoirState, all: seq<T>, c: nat, acc: seq<T>, pick: nat)
    requires RS.WellFormed(s) && s.reservoirSize > 0 && s.count == c - 1 && c < |all|
    requires Filled(s.reservoirSize, all, c, acc)
    ensures Filled(s.reservoirSize, all, c + 1, Advance(s, acc, all[c], pick))
  {
    var k := s.reservoirSize;
    var st := RS.Next(s, pick);
    var x := all[c];
    assert all[..c + 1] == all[..c] + [x];
    if st.result != SKIP {
      assert c < k ==> st.result == c == |acc|;
      assert c >= k ==> 0 <= st.result < k == |acc|;
      PlacedKeeps(all, c, acc, st.result);
    }
  }

  lemma {:induction false} OverwriteInvariant<T>(s: RS.ReservoirState, all: seq<T>, c: nat, draws: seq<Draw>, acc: seq<T>)
    requires RS.WellFormed(s) && s.reservoirSize > 0 && s.count == c - 1
    requires |draws| == |all| - c && Filled(s.reservoirSize, all, c, acc)
    ensures OverwriteFrom(Reservoir(s), all[c..], draws, acc).Sampled?
    ensures Filled(s.reservoirSize, all, |all|, OverwriteFrom(Reservoir(s), all[c..], draws, acc).sample)
    decreases |all| - c
  {
    if c < |all| {
      var st := RS.Next(s, draws[0].pick);
      var acc' := Advance(s, acc, all[c], draws[0].pick);
      AdvanceKeeps(s, all, c, acc, draws[0].pick);
      assert all[c..][0] == all[c] && all[c..][1..] == all[c + 1..];
      assert Next(Reservoir(s), draws[0]) == Step(Reservoir(st.state), st.result);
      assert OverwriteFrom(Reservoir(s), all[c..], draws, acc)
             == OverwriteFrom(Reservoir(st.state), all[c + 1..], draws[1..], acc');
      OverwriteInvariant(st.state, all, c + 1, draws[1..], acc');
    } else {
      assert all[c..] == [];
    }
  }

  /** The append-or-overwrite driver over a reservoir of size k: the sample has min(n, k)
      rows, equals the input when n <= k (so it is empty when k is 0), holds only input rows,
      and has no duplicates when the input rows are distinct. */
  lemma {:induction false} Sample<T>(limit: int, size: Number, rows: seq<T>, draws: seq<Draw>)
    requires IntValue(size) >= 0 && |draws| == |rows|
    ensures OverwriteDrive(Construct(ReservoirStrategy, limit, size).value, rows, draws).Sampled?
    ensures |OverwriteDrive(Construct(ReservoirStrategy, limit, size).value, rows, draws).sample|
            == RS.Min(|rows|, IntValue(size))
    ensures |rows| <= IntValue(size) ==> OverwriteDrive(Construct(ReservoirStrategy, limit, size).value, rows, draws).sample == rows
    ensures forall y :: y in OverwriteDrive(Construct(ReservoirStrategy, limit, size).value, rows, draws).sample ==> y in rows
    ensures Distinct(rows) ==> Distinct(OverwriteDrive(Construct(ReservoirStrategy, limit, size).value, rows, draws).sample)
  {
    var s := RS.Create(limit, size).value;
    if IntValue(size) > 0 {
      assert rows[0..] == rows;
      OverwriteInvariant(s, rows, 0, draws, []);
      assert rows[..|rows|] == rows;
    }
  }
}
