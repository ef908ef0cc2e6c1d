# OpenRefine row sampling, modelled in Dafny

OpenRefine's importers can keep only a sample of the rows of a file. A *sampler* is
asked once per row, through `nextIndex()`, what to do with that row. It answers with a
slot index (keep the row, at that position of the sample), `SKIP` (-1, drop the row) or
`END` (-2, stop reading). Four strategies exist:

- **Default** numbers the rows 0, 1, 2, … and answers `END` once a positive row limit is
  reached.
- **Systematic** keeps every k-th row, starting with the first.
- **Bernoulli** keeps each row independently with a given probability.
- **Reservoir** fills k slots with the first k rows. After that it draws a slot to
  overwrite, or skips the row.

A registry maps case-insensitive names to strategy classes. It builds a sampler from a
`(limit, factor)` pair.

The model has these parts:

- `Sampler` (sampler.dfy) holds the two sentinels and the result classification. It also
  holds `Number.intValue()` and `Random.nextInt` (draws are injected), plus the error and
  step types.
- One module per strategy (default_sampler.dfy, systematic_sampler.dfy,
  bernoulli_sampler.dfy, reservoir_sampler.dfy). Each has a pure state, a constructor
  function `Create` returning an error for a rejected parameter, and a step function
  `Next`. Each also has a class with the Java fields, whose `NextIndex` method updates
  exactly the fields the Java method updates. That method is proved equal to `Next`.
- `Samplers` (samplers.dfy) is the tagged union of the four strategies. It gives
  construction by strategy and runs of calls (`Run`). It also gives the two row drivers
  of the tests as functions. `AppendDrive` is the append-only driver of the Systematic
  and Bernoulli tests. `OverwriteDrive` is the append-or-overwrite driver of the
  Reservoir tests.
- `DefaultRuns`, `SystematicRuns`, `BernoulliRuns`, `ReservoirRuns` give closed forms of
  what a run of calls returns. They also prove what each driver's sample is.
- `Registry` (sampler_registry.dfy) models name folding, registration and lookup, plus a
  class holding the map.
- `SamplerTests` (sampler_tests.dfy) holds the drivers as loops over the sampler
  objects, proved equal to the driver functions. It also states, for every outcome of the
  random draws, the outcome each test case expects.

Randomness is a parameter. A `Draw` carries the outcome of `nextDouble() <= percentage`
(`below`) and the raw value behind `nextInt(bound)` (`pick`, reduced modulo the bound).
Every property about Bernoulli and Reservoir samples therefore holds for *all* random
outcomes.

Behaviour of the code worth stating, all modelled as written:

- `SamplerRegistry.getSampler` returns `null` when the constructor throws. It does not
  propagate the `IllegalArgumentException`. `Lookup` answers `NoSampler` in that case.
- `ReservoirSampler` draws `nextInt(count)`, where `count` is the 0-based position of the
  row, not `nextInt(count + 1)`. The row right after the fill therefore always overwrites
  a slot. That is not the textbook uniform reservoir (`FirstOverflowReplaces`).
- Bernoulli and Reservoir store the row limit but never consult it (`LimitIgnored`).
- Systematic counts the call before comparing it with the limit. With a positive limit L
  it examines only the first L - 1 rows (`SystematicRuns.FirstEndIsExamined`).
- The integer parameters go through `intValue()`, which truncates toward zero. A
  reservoir size of -0.5 is accepted as 0, and a step of 0.5 is rejected.

## Model

| member | source | states |
|---|---|---|
| Sampler.Classify | modules/core/src/main/java/com/google/refine/sampling/Sampler.java:9-16 | a result is a slot exactly when it is non-negative, SKIP is -1, END is -2 |
| Sampler.Encode | modules/core/src/main/java/com/google/refine/sampling/Sampler.java:9-10 | every signal encodes to a valid result, non-negative exactly for a slot |
| Sampler.ClassifyEncode | modules/core/src/main/java/com/google/refine/sampling/Sampler.java:9-10 | the sentinels are distinct from each other and from every slot: classification inverts encoding |
| Sampler.EncodeClassify | modules/core/src/main/java/com/google/refine/sampling/Sampler.java:9-10 | the other direction: every valid result is recovered from its classification |
| Sampler.IntValue | main/src/com/google/refine/sampling/SystematicSampler.java:15-18 | `intValue()` truncates toward zero, for positive and negative values |
| Sampler.IntValueOfInteger | main/src/com/google/refine/sampling/ReservoirSampler.java:18-22 | an integral parameter keeps its value through `intValue()` |
| Sampler.NextInt | main/src/com/google/refine/sampling/ReservoirSampler.java:36 | `nextInt(bound)` lies in [0, bound) and can return each value of that range |
| DefaultSampling.Create | modules/core/src/main/java/com/google/refine/sampling/DefaultSampler.java:6-10 | stores the limit as given, ignores the parameter, starts the counter at 0 |
| DefaultSampling.Next | modules/core/src/main/java/com/google/refine/sampling/DefaultSampler.java:16-21 | never SKIP; END exactly when a positive limit is reached, and then nothing changes; otherwise returns the counter and increments it |
| DefaultSampling.DefaultSampler.constructor | modules/core/src/main/java/com/google/refine/sampling/AbstractSampler.java:9-13 | the object's fields are the state `Create` builds |
| DefaultSampling.DefaultSampler.NextIndex | modules/core/src/main/java/com/google/refine/sampling/DefaultSampler.java:16-21 | returns what `Next` returns and leaves the fields in `Next`'s new state, changing only `index` |
| DefaultRuns.ResultsFrom | modules/core/src/main/java/com/google/refine/sampling/DefaultSampler.java:16-21 | call j returns index + j until the limit, and END from then on |
| DefaultRuns.IndexAfter | modules/core/src/main/java/com/google/refine/sampling/DefaultSampler.java:17-20 | after n calls the counter is n, capped by a positive limit |
| DefaultRuns.Gapless | modules/core/src/main/java/com/google/refine/sampling/DefaultSampler.java:20 | the slots returned are consecutive from the starting counter |
| DefaultRuns.Sample | modules/core/src/main/java/com/google/refine/sampling/DefaultSampler.java:16-21 | the driver keeps the first `limit` rows for a positive limit, and every row otherwise |
| SystematicSampling.Create | main/src/com/google/refine/sampling/SystematicSampler.java:13-19 | succeeds exactly when the step, as an int, is positive; stores limit and step with both counters at 0 |
| SystematicSampling.Next | main/src/com/google/refine/sampling/SystematicSampler.java:25-35 | counts every call; END exactly when the new count reaches a positive limit; otherwise keeps the row exactly when the previous count is a multiple of the step, returning and incrementing `index` |
| SystematicSampling.SystematicSampler.constructor | main/src/com/google/refine/sampling/SystematicSampler.java:13-19 | the fields are the state `Create` builds, for an accepted step |
| SystematicSampling.SystematicSampler.New | main/src/com/google/refine/sampling/SystematicSampler.java:13-19 | a sampler exactly when `Create` accepts the step, else the IllegalArgumentException with `Create`'s message |
| SystematicSampling.SystematicSampler.NextIndex | main/src/com/google/refine/sampling/SystematicSampler.java:25-35 | returns what `Next` returns and leaves the fields in `Next`'s new state, changing only `count` and `index` |
| SystematicRuns.ResultsFrom | main/src/com/google/refine/sampling/SystematicSampler.java:25-35 | call j is END from the limit on; otherwise it returns position (count + j) / step when count + j is a multiple of the step, and SKIP otherwise |
| SystematicRuns.CountAfter | main/src/com/google/refine/sampling/SystematicSampler.java:26 | every call, END included, increments `count` |
| SystematicRuns.Gapless | main/src/com/google/refine/sampling/SystematicSampler.java:30-31 | the slots returned are consecutive from the starting index |
| SystematicRuns.FreshMask | main/src/com/google/refine/sampling/SystematicSampler.java:25-35 | from a fresh sampler the driver keeps exactly the rows j below the number examined with j a multiple of the step |
| SystematicRuns.SelectEveryKthLength | main/src/com/google/refine/sampling/SystematicSampler.java:30 | keeping the multiples of k below e gives ceil(e / k) elements |
| SystematicRuns.SelectEveryKth | main/src/com/google/refine/sampling/SystematicSampler.java:30 | the elements kept are xs[0], xs[k], xs[2k], …, all below e |
| SystematicRuns.FirstEndIsExamined | main/src/com/google/refine/sampling/SystematicSampler.java:26-28 | from a fresh sampler the first END comes at call L for a positive limit L (so only the first L - 1 rows are examined), and never otherwise |
| SystematicRuns.Sample | main/src/com/google/refine/sampling/SystematicSampler.java:25-35 | the driver's sample has ceil(e / k) rows, the i-th being row i * k, where e is the number of rows examined |
| SystematicRuns.StepCoversRows | main/tests/server/src/com/google/refine/sampling/SystematicSamplerTest.java:31-59 | a step at least the number of rows keeps exactly the first row |
| BernoulliSampling.Create | main/src/com/google/refine/sampling/BernoulliSampler.java:16-23 | succeeds exactly when 0 <= percentage <= 1, with the message of the source otherwise |
| BernoulliSampling.Next | main/src/com/google/refine/sampling/BernoulliSampler.java:29-37 | END exactly for percentage 0; keeps the row exactly when it draws below the percentage or the percentage is 1; SKIP otherwise, leaving the state unchanged |
| BernoulliSampling.BernoulliSampler.constructor | main/src/com/google/refine/sampling/BernoulliSampler.java:16-23 | the fields are the state `Create` builds, for an accepted percentage |
| BernoulliSampling.BernoulliSampler.New | main/src/com/google/refine/sampling/BernoulliSampler.java:16-23 | a sampler exactly when `Create` accepts the percentage, else the IllegalArgumentException with `Create`'s message |
| BernoulliSampling.BernoulliSampler.NextIndex | main/src/com/google/refine/sampling/BernoulliSampler.java:29-37 | returns what `Next` returns and leaves the fields in `Next`'s new state, changing only `index` |
| BernoulliRuns.ResultsFrom | main/src/com/google/refine/sampling/BernoulliSampler.java:29-37 | in every call, END exactly for percentage 0, and a slot exactly for a non-zero percentage and a kept draw |
| BernoulliRuns.CountKept | main/src/com/google/refine/sampling/BernoulliSampler.java:34 | the number of kept calls is at most the number of calls |
| BernoulliRuns.Gapless | main/src/com/google/refine/sampling/BernoulliSampler.java:33-36 | slots are consecutive, and `index` ends at the number of kept rows |
| BernoulliRuns.LimitIgnored | main/src/com/google/refine/sampling/BernoulliSampler.java:16-17 | changing the limit changes no result |
| BernoulliRuns.Sample | main/src/com/google/refine/sampling/BernoulliSampler.java:29-37 | the driver keeps nothing for percentage 0, else exactly the rows whose draw was kept, in order |
| BernoulliRuns.SampleAll | main/src/com/google/refine/sampling/BernoulliSampler.java:33 | percentage 1 keeps every row, whatever the draws |
| ReservoirSampling.Create | main/src/com/google/refine/sampling/ReservoirSampler.java:16-23 | succeeds exactly when the size, as an int, is not negative (0 is accepted); count starts at -1 and index at 0 |
| ReservoirSampling.Next | main/src/com/google/refine/sampling/ReservoirSampler.java:29-41 | END exactly for size 0, leaving the state unchanged; during the fill returns the next slot; afterwards returns a slot below the size or SKIP; every other call counts the row |
| ReservoirSampling.ReservoirSampler.constructor | main/src/com/google/refine/sampling/ReservoirSampler.java:16-23 | the fields are the state `Create` builds, for an accepted size |
| ReservoirSampling.ReservoirSampler.New | main/src/com/google/refine/sampling/ReservoirSampler.java:16-23 | a sampler exactly when `Create` accepts the size, else the IllegalArgumentException with `Create`'s message |
| ReservoirSampling.ReservoirSampler.NextIndex | main/src/com/google/refine/sampling/ReservoirSampler.java:29-41 | returns what `Next` returns and leaves the fields in `Next`'s new state, changing only `count` and `index` |
| ReservoirRuns.ResultsFrom | main/src/com/google/refine/sampling/ReservoirSampler.java:29-41 | call j returns END for size 0, slot c while the row position c is below the size, then nextInt(c) when that is below the size, and SKIP otherwise |
| ReservoirRuns.ResultAt | main/src/com/google/refine/sampling/ReservoirSampler.java:29-41 | the answer for row position c: END exactly for size 0, slot c while filling, and afterwards SKIP or a slot below the size that never exceeds c |
| ReservoirRuns.StateAfter | main/src/com/google/refine/sampling/ReservoirSampler.java:33-34 | after n calls `count` has advanced by n and `index` is min(rows seen, size) |
| ReservoirRuns.FirstOverflowReplaces | main/src/com/google/refine/sampling/ReservoirSampler.java:36-38 | the row right after the fill always overwrites a slot, because nextInt(size) is below the size |
| ReservoirRuns.LimitIgnored | main/src/com/google/refine/sampling/ReservoirSampler.java:16-17 | changing the limit changes no result |
| ReservoirRuns.Placed | main/tests/server/src/com/google/refine/sampling/ReservoirSamplerTest.java:146-150 | a slot equal to the sample's size grows the sample by one, a smaller one keeps its size; either way the row is at that slot |
| ReservoirRuns.PlacedKeeps | main/tests/server/src/com/google/refine/sampling/ReservoirSamplerTest.java:146-150 | placing a row keeps the sample within the rows seen and free of duplicates |
| ReservoirRuns.AdvanceKeeps | main/src/com/google/refine/sampling/ReservoirSampler.java:33-40 | one row of the driver keeps the invariant: min(rows seen, size) rows, the prefix while filling, only rows seen, no duplicates |
| ReservoirRuns.OverwriteInvariant | main/tests/server/src/com/google/refine/sampling/ReservoirSamplerTest.java:138-154 | from any point where the invariant holds, the overwrite driver never fails, and the invariant holds after the last row |
| ReservoirRuns.Sample | main/tests/server/src/com/google/refine/sampling/ReservoirSamplerTest.java:138-154 | the overwrite driver never fails; it returns min(n, size) input rows, all of them when n <= size, without duplicates when the input has none |
| Samplers.Construct | modules/core/src/main/java/com/google/refine/sampling/SamplerRegistry.java:28 | construction succeeds exactly when the strategy accepts the factor; the sampler is well-formed, of that strategy, with the given limit |
| Samplers.ParameterAccepted | modules/core/src/main/java/com/google/refine/sampling/SamplerRegistry.java:28-35 | the parameter domain is exactly the one each strategy's constructor accepts, for every limit; the Default constructor accepts everything |
| Samplers.Next | modules/core/src/main/java/com/google/refine/sampling/Sampler.java:12-16 | every strategy's `nextIndex` returns a slot, SKIP or END, and keeps its strategy and limit |
| Samplers.Run | modules/core/src/main/java/com/google/refine/sampling/Sampler.java:16 | one result per call, all valid, with the strategy and limit kept |
| Samplers.FirstEnd | main/tests/server/src/com/google/refine/sampling/BernoulliSamplerTest.java:134-135 | the position of the first END, or the number of results when there is none |
| Samplers.AppendFrom | main/tests/server/src/com/google/refine/sampling/BernoulliSamplerTest.java:130-142 | the append-only driver only appends: what it collected so far stays a prefix, and it adds at most one row per input row |
| Samplers.AppendDrive | main/tests/server/src/com/google/refine/sampling/SystematicSamplerTest.java:100-112 | from an empty list the sample never has more rows than the input |
| Samplers.AppendDriveSelects | main/tests/server/src/com/google/refine/sampling/BernoulliSamplerTest.java:130-142 | the append-only driver returns the rows before the first END whose call did not return SKIP, in their order |
| Samplers.AppendDriveSubset | main/tests/server/src/com/google/refine/sampling/BernoulliSamplerTest.java:27 | every sampled row is an input row |
| Samplers.AppendDriveDistinct | main/tests/server/src/com/google/refine/sampling/BernoulliSamplerTest.java:28 | distinct input rows give a sample without duplicates |
| Samplers.AppendDriveStopsAtEnd | main/tests/server/src/com/google/refine/sampling/SystematicSamplerTest.java:104-105 | rows after the first END do not affect the sample |
| Samplers.GaplessOverwriteIsAppend | main/tests/server/src/com/google/refine/sampling/ReservoirSamplerTest.java:145-150 | when the slots are consecutive, the overwrite driver builds the same sample as the append-only one |
| Samplers.OverwriteFrom | main/tests/server/src/com/google/refine/sampling/ReservoirSamplerTest.java:138-154 | when it does not fail, the append-or-overwrite driver grows the sample by at most one row per input row and never shrinks it |
| Samplers.OverwriteDrive | main/tests/server/src/com/google/refine/sampling/ReservoirSamplerTest.java:138-154 | from an empty list a successful sample never has more rows than the input |
| Samplers.DrivenStateIsRun | main/tests/server/src/com/google/refine/sampling/SystematicSamplerTest.java:100-112 | a driver leaves the sampler in the state of a run of exactly the calls it made: through the first END, or one per row |
| Seqs.Range | main/tests/server/src/com/google/refine/sampling/SystematicSamplerTest.java:94-97 | the test list 0..n-1 |
| Registry.ToLower | modules/core/src/main/java/com/google/refine/sampling/SamplerRegistry.java:18 | folding keeps the length and lowers each ASCII capital, position by position |
| Registry.LowerChar | modules/core/src/main/java/com/google/refine/sampling/SamplerRegistry.java:18 | the character fold: an ASCII capital becomes its small letter (code + 32), every other character is unchanged |
| Registry.ToLowerIdempotent | modules/core/src/main/java/com/google/refine/sampling/SamplerRegistry.java:18-22 | folding a folded name changes nothing |
| Registry.CaseVariantsFold | modules/core/src/main/java/com/google/refine/sampling/SamplerRegistry.java:18-22 | names differing only in letter case fold to the same key |
| Registry.Registered | modules/core/src/main/java/com/google/refine/sampling/SamplerRegistry.java:17-19 | the folded name maps to the class, and every other key is unchanged |
| Registry.Lookup | modules/core/src/main/java/com/google/refine/sampling/SamplerRegistry.java:21-36 | unknown folded name gives the "Unknown sampling method" error; a rejected factor gives null; otherwise the sampler built with the given limit |
| Registry.LookupAfterRegister | modules/core/src/main/java/com/google/refine/sampling/SamplerRegistry.java:17-36 | after registering a name, every case variant of it finds that class, or null when the factor is rejected |
| Registry.RegisterLeavesOthers | modules/core/src/main/java/com/google/refine/sampling/SamplerRegistry.java:17-19 | registering one name does not change the lookup of another |
| Registry.LastRegistrationWins | modules/core/src/main/java/com/google/refine/sampling/SamplerRegistry.java:18 | registering case variants of one name twice keeps the last class |
| Registry.SamplerRegistry.constructor | modules/core/src/main/java/com/google/refine/sampling/SamplerRegistry.java:15 | the registry starts with an empty map |
| Registry.SamplerRegistry.RegisterSampler | modules/core/src/main/java/com/google/refine/sampling/SamplerRegistry.java:17-19 | the map becomes `Registered` of the old map |
| Registry.SamplerRegistry.GetSampler | modules/core/src/main/java/com/google/refine/sampling/SamplerRegistry.java:21-36 | the answer is `Lookup` of the current map: unknown exactly when the folded name is absent, null exactly when the registered class rejects the factor, otherwise the sampler built with the given limit |
| SamplerTests.SampleSystematic | main/tests/server/src/com/google/refine/sampling/SystematicSamplerTest.java:100-112 | the loop over the sampler object returns the append-only driver's sample and leaves the sampler where the driver stopped |
| SamplerTests.SampleBernoulli | main/tests/server/src/com/google/refine/sampling/BernoulliSamplerTest.java:130-142 | the loop over the sampler object returns the append-only driver's sample for the given draws and leaves the sampler where the driver stopped |
| SamplerTests.SampleReservoir | main/tests/server/src/com/google/refine/sampling/ReservoirSamplerTest.java:138-154 | the loop over the sampler object returns the append-or-overwrite driver's outcome for the given draws and, on success, leaves the sampler where the driver stopped |
| SamplerTests.SystematicOverRange | main/tests/server/src/com/google/refine/sampling/SystematicSamplerTest.java:14-28 | step k over the list 0..n-1 gives ceil(n / k) rows, the i-th being i * k |
| SamplerTests.SystematicBasicSampling | main/tests/server/src/com/google/refine/sampling/SystematicSamplerTest.java:14-28 | step 11 over 0..99 gives 0, 11, …, 99 |
| SamplerTests.SystematicStepCoversList | main/tests/server/src/com/google/refine/sampling/SystematicSamplerTest.java:31-59 | step 100 over 10 rows or 100 rows gives just row 0 |
| SamplerTests.SystematicRejectsStep | main/tests/server/src/com/google/refine/sampling/SystematicSamplerTest.java:61-77 | steps 0 and -1 are rejected |
| SamplerTests.SystematicEmptyList | main/tests/server/src/com/google/refine/sampling/SystematicSamplerTest.java:79-91 | an empty list gives an empty sample |
| SamplerTests.BernoulliBasicSampling | main/tests/server/src/com/google/refine/sampling/BernoulliSamplerTest.java:16-29 | at 10%, whatever the draws, the sample holds only list rows and no duplicates |
| SamplerTests.BernoulliPercentageZero | main/tests/server/src/com/google/refine/sampling/BernoulliSamplerTest.java:63-75 | percentage 0 gives an empty sample |
| SamplerTests.BernoulliPercentageHundred | main/tests/server/src/com/google/refine/sampling/BernoulliSamplerTest.java:86-98 | percentage 100% gives the whole list |
| SamplerTests.BernoulliRejectsPercentage | main/tests/server/src/com/google/refine/sampling/BernoulliSamplerTest.java:77-107 | -1% and 500% are rejected |
| SamplerTests.BernoulliEmptyList | main/tests/server/src/com/google/refine/sampling/BernoulliSamplerTest.java:109-121 | an empty list gives an empty sample |
| SamplerTests.ReservoirBasicSampling | main/tests/server/src/com/google/refine/sampling/ReservoirSamplerTest.java:16-30 | size 10 over 0..99 gives ten list rows without duplicates, whatever the draws |
| SamplerTests.ReservoirListFits | main/tests/server/src/com/google/refine/sampling/ReservoirSamplerTest.java:64-92 | size 100 or 10 over 10 rows gives the list itself |
| SamplerTests.ReservoirSizeZero | main/tests/server/src/com/google/refine/sampling/ReservoirSamplerTest.java:94-106 | size 0 gives an empty sample |
| SamplerTests.ReservoirRejectsSize | main/tests/server/src/com/google/refine/sampling/ReservoirSamplerTest.java:108-115 | size -1 is rejected, while -0.5 truncates to 0 and is accepted |
| SamplerTests.ReservoirEmptyList | main/tests/server/src/com/google/refine/sampling/ReservoirSamplerTest.java:117-129 | an empty list gives an empty sample |

## Left out

- `java.util.Random` is not modelled. Each call's outcome is a parameter (`Draw`), and
  any sequence of outcomes is allowed. So the properties hold for every outcome, but the
  probabilities are not modelled.
- The statistical tests are left out because they need probabilities. These are the
  chi-square checks of the Bernoulli inclusion rate and of reservoir uniformity
  (BernoulliSamplerTest.java:31-60 and ReservoirSamplerTest.java:32-61).
- Floating point is not modelled. `Number` and `double` are exact reals. Rounding of
  `percentage / 100.0`, NaN, infinities and the saturation of `intValue()` on huge values
  are out of scope.
- Integers are unbounded. A 32-bit overflow of `count` or `index` after about 2^31 rows
  is not modelled.
- A null limit or factor is not modelled. In the source it would make unboxing throw.
- `String.toLowerCase()` is modelled on ASCII letters only. Locale rules and non-ASCII
  case mappings are left out.
- Registry.Lookup: the reflection path is not modelled. The `NoSuchMethodException`
  branch cannot happen for the four strategies, since each declares the
  `(Integer, Number)` constructor.
- The error logging of `getSampler` is left out, since it has no effect on the result.
- The registry's map is an object here instead of a process-wide static field. Its
  thread safety is out of scope.
- The importer and expression-language code that call the samplers are not part of this
  model. This covers ParquetImporter, grel Control and Function, and the browser test.
