/** SamplerRegistry: a map from case-folded names to sampler classes, and construction by name. */
module Registry {
  import opened Sampler
  import opened Samplers

  /** `Character.toLowerCase` on the ASCII letters; every other character is left as it is. */
  function LowerChar(c: char): (l: char)
    ensures 'A' <= c <= 'Z' ==> 'a' <= l <= 'z' && l as int == c as int + 32
    ensures !('A' <= c <= 'Z') ==> l == c
  {
    if 'A' <= c <= 'Z' then (c as int + 32) as char else c
  }

  /** `String.toLowerCase()`. */
  function ToLower(s: string): (r: string)
    ensures |r| == |s|
    ensures forall i :: 0 <= i < |s| ==> r[i] == LowerChar(s[i])
  {
    if s == [] then [] else [LowerChar(s[0])] + ToLower(s[1..])
  }

  /** Folding twice is folding once. */
  lemma {:induction false} ToLowerIdempotent(s: string)
    ensures ToLower(ToLower(s)) == ToLower(s)
  {
    if s != [] {
      ToLowerIdempotent(s[1..]);
      assert ToLower(s)[1..] == ToLower(s[1..]);
    }
  }

  /** `b` spells `a` with the case of some ASCII letters changed. */
  predicate CaseVariant(a: string, b: string) {
    |a| == |b| &&
    forall i :: 0 <= i < |a| ==>
      a[i] == b[i]
      || ('A' <= a[i] <= 'Z' && b[i] as int == a[i] as int + 32)
      || ('a' <= a[i] <= 'z' && b[i] as int == a[i] as int - 32)
  }

  lemma LowerCharVariant(c: char, d: char)
    requires c == d || ('A' <= c <= 'Z' && d as int == c as int + 32) || ('a' <= c <= 'z' && d as int == c as int - 32)
    ensures LowerChar(c) == LowerChar(d)
  {
  }

  lemma {:induction false} CaseVariantsFold(a: string, b: string)
    requires CaseVariant(a, b)
    ensures ToLower(a) == ToLower(b)
  {
    var la, lb := ToLower(a), ToLower(b);
    forall i | 0 <= i < |a| ensures la[i] == lb[i] {
      LowerCharVariant(a[i], b[i]);
    }
  }

  /** `nameToSampler.put(name.toLowerCase(), sampler)`: the folded name now maps to the
      sampler, and every other key keeps its entry (or its absence). */
  function Registered(m: map<string, Strategy>, name: string, sampler: Strategy): (r: map<string, Strategy>)
    ensures ToLower(name) in r && r[ToLower(name)] == sampler
    ensures forall key :: key != ToLower(name) ==> (key in r <==> key in m)
    ensures forall key :: key != ToLower(name) && key in m ==> r[key] == m[key]
  {
    m[ToLower(name) := sampler]
  }

  /** What `getSampler` leaves the caller with. */
  datatype LookupResult =
    | UnknownSamplingMethod(name: string)  // the IllegalArgumentException for an unregistered name
    | NoSampler                             // null: the constructor threw and the registry swallowed it
    | Found(sampler: AnySampler)

  /** `getSampler(name, limit, factor)`: fold the name, fail for an unknown one, call the
      class's (limit, factor) constructor, and return null when that constructor throws. */
  function Lookup(m: map<string, Strategy>, name: string, limit: int, factor: Number): (r: LookupResult)
    ensures r.UnknownSamplingMethod? <==> ToLower(name) !in m
    ensures r.UnknownSamplingMethod? ==> r.name == name
    ensures ToLower(name) in m ==> (r.NoSampler? <==> !ParameterAccepted(m[ToLower(name)], factor))
    ensures r.Found? ==> r.sampler == Construct(m[ToLower(name)], limit, factor).value
    ensures r.Found? ==> WellFormed(r.sampler) && LimitLines(r.sampler) == limit
                         && StrategyOf(r.sampler) == m[ToLower(name)]
  {
    var key := ToLower(name);
    if key !in m then UnknownSamplingMethod(name)
    else
      match Construct(m[key], limit, factor)
      case Ok(sampler) => Found(sampler)
      case Err(_) => NoSampler
  }

  /** A sampler registered under a name is found under every case variant of that name,
      built with exactly the limit and factor given, or null when its constructor rejects the factor. */
  lemma {:induction false} LookupAfterRegister(m: map<string, Strategy>, name: string, alias: string, sampler: Strategy,
                            limit: int, factor: Number)
    requires CaseVariant(name, alias)
    ensures Lookup(Registered(m, name, sampler), alias, limit, factor)
            == if ParameterAccepted(sampler, factor) then Found(Construct(sampler, limit, factor).value)
               else NoSampler
  {
    CaseVariantsFold(name, alias);
  }

  /** Registering one name leaves the lookup of every other folded name as it was. */
  lemma RegisterLeavesOthers(m: map<string, Strategy>, name: string, other: string, sampler: Strategy,
                             limit: int, factor: Number)
    requires ToLower(other) != ToLower(name)
    ensures Lookup(Registered(m, name, sampler), other, limit, factor) == Lookup(m, other, limit, factor)
  {
  }

  /** Registering twice under variants of one name: the last registration wins. */
  lemma {:induction false} LastRegistrationWins(m: map<string, Strategy>, name: string, alias: string, first: Strategy, second: Strategy)
    requires CaseVariant(name, alias)
    ensures Registered(Registered(m, name, first), alias, second) == Registered(m, name, second)
  {
    CaseVariantsFold(name, alias);
  }

  /** The process-wide registry (a static map in the source, an object here). */
  class SamplerRegistry {
    var nameToSampler: map<string, Strategy>

    constructor ()
      ensures nameToSampler == map[]
    {
      nameToSampler := map[];
    }

    method RegisterSampler(name: string, sampler: Strategy)
      modifies this
      ensures nameToSampler == Registered(old(nameToSampler), name, sampler)
    {
      nameToSampler := nameToSampler[ToLower(name) := sampler];
    }

    function GetSampler(name: string, limit: int, factor: Number): (r: LookupResult)
      reads this
      ensures r == Lookup(nameToSampler, name, limit, factor)
      ensures r.UnknownSamplingMethod? <==> ToLower(name) !in nameToSampler
      ensures ToLower(name) in nameToSampler
              ==> (r.NoSampler? <==> !ParameterAccepted(nameToSampler[ToLower(name)], factor))
      ensures r.Found? ==> ToLower(name) in nameToSampler
                           && Construct(nameToSampler[ToLower(name)], limit, factor) == Ok(r.sampler)
                           && LimitLines(r.sampler) == limit
    {
      Lookup(nameToSampler, name, limit, factor)
    }
  }
}
