/** K-means++ seeding: each further seed is drawn among the rows that are not yet seeds, with odds
    that grow with their distance. */
module Seeding {
  import opened Vectors
  import opened KMeans
  import opened Collections

  function Total(values: seq<real>): real {
    if values == [] then 0.0 else Total(values[..|values| - 1]) + values[|values| - 1]
  }

  lemma {:induction false} TotalOfWeights(values: seq<real>)
    requires forall i | 0 <= i < |values| :: 0.0 <= values[i]
    ensures 0.0 <= Total(values)
    ensures Total(values) <= 0.0 <==> forall i | 0 <= i < |values| :: values[i] == 0.0
  {
    if values != [] {
      var n := |values| - 1;
      TotalOfWeights(values[..n]);
      assert forall i | 0 <= i < n :: values[..n][i] == values[i];
    }
  }

  /** The weights are the squared distances to the nearest seed. */
  ghost predicate Weighted(data: seq<Vector>, seeds: seq<Vector>, weights: seq<real>, dimension: nat) {
    && Rectangular(data, dimension) && Rectangular(seeds, dimension) && seeds != []
    && |weights| == |data| && (forall i | 0 <= i < |data| :: weights[i] == NearestDist2(data[i], seeds))
  }

  /** A row has weight exactly when it is not a seed yet. */
  lemma WeightOfNewRows(data: seq<Vector>, seeds: seq<Vector>, weights: seq<real>, dimension: nat, i: nat)
    requires Weighted(data, seeds, weights, dimension) && i < |data|
    ensures 0.0 <= weights[i] && (weights[i] == 0.0 <==> data[i] in seeds)
  {
    NearestDist2Is(data[i], seeds);
    forall j | 0 <= j < |seeds|
      ensures Dist2(data[i], seeds[j]) == 0.0 <==> data[i] == seeds[j]
    {
      ZeroDistance(data[i], seeds[j]);
    }
  }

  /** Nothing is left to share out exactly when every row is a seed. */
  lemma NothingLeft(data: seq<Vector>, seeds: seq<Vector>, weights: seq<real>, dimension: nat)
    requires Weighted(data, seeds, weights, dimension)
    ensures Total(weights) <= 0.0 <==> Elements(data) <= Elements(seeds)
    ensures 0.0 < Total(weights) ==> exists i :: 0 <= i < |data| && 0.0 < weights[i]
  {
    forall i | 0 <= i < |data|
      ensures 0.0 <= weights[i] && (weights[i] == 0.0 <==> data[i] in seeds)
    {
      WeightOfNewRows(data, seeds, weights, dimension, i);
    }
    TotalOfWeights(weights);
    if Elements(data) <= Elements(seeds) {
      forall i | 0 <= i < |data|
        ensures weights[i] == 0.0
      {
        assert data[i] in Elements(data);
      }
    }
  }

  /** Brings the weights up to date with one more seed. */
  method Reweigh(data: seq<Vector>, ghost seeds: seq<Vector>, weights: array<real>, seed: Vector, dimension: nat)
    requires Weighted(data, seeds, weights[..], dimension) && |seed| == dimension
    modifies weights
    ensures Weighted(data, seeds + [seed], weights[..], dimension)
  {
    var more := seeds + [seed];
    assert more[..|more| - 1] == seeds;
    for i := 0 to |data|
      invariant forall j | i <= j < |data| :: weights[j] == NearestDist2(data[j], seeds)
      invariant forall j | 0 <= j < i :: weights[j] == NearestDist2(data[j], seeds + [seed])
    {
      var distance := Dist2(data[i], seed);
      if distance < weights[i] {
        weights[i] := distance;
      }
    }
  }

  method FirstWeights(data: seq<Vector>, seed: Vector, dimension: nat) returns (weights: array<real>)
    requires Rectangular(data, dimension) && |seed| == dimension
    ensures fresh(weights) && Weighted(data, [seed], weights[..], dimension)
  {
    weights := new real[|data|](i requires 0 <= i < |data| => Dist2(data[i], seed));
  }

  /** Draws seeds as long as there are rows with weight; `drawn` of them were. */
  method DrawSeeds(data: seq<Vector>, k: nat, dimension: nat) returns (seeds: array<Vector>, drawn: nat)
    requires Rectangular(data, dimension) && data != [] && 1 <= k
    ensures fresh(seeds) && seeds.Length == k && 1 <= drawn <= k
    ensures Elements(seeds[..drawn]) <= Elements(data) && Different(seeds[..drawn])
    ensures drawn < k ==> Elements(data) <= Elements(seeds[..drawn])
  {
    var first :| 0 <= first < |data|;
    seeds := new Vector[k](_ => data[first]);
    var weights := FirstWeights(data, data[first], dimension);
    drawn := 1;
    assert seeds[..1] == [data[first]];
    while drawn < k
      invariant 1 <= drawn <= k && seeds.Length == k && weights.Length == |data|
      invariant Elements(seeds[..drawn]) <= Elements(data) && Different(seeds[..drawn])
      invariant Weighted(data, seeds[..drawn], weights[..], dimension)
    {
      ghost var soFar := seeds[..drawn];
      NothingLeft(data, soFar, weights[..], dimension);
      if Total(weights[..]) <= 0.0 {
        return;
      }
      var row :| 0 <= row < |data| && 0.0 < weights[row];
      WeightOfNewRows(data, soFar, weights[..], dimension, row);
      Reweigh(data, soFar, weights, data[row], dimension);
      seeds[drawn] := data[row];
      drawn := drawn + 1;
      assert seeds[..drawn] == soFar + [data[row]];
    }
  }

  /** Draws `k` seeds. With at least `k` different rows the seeds are pairwise different, whatever
      is drawn; with fewer, every row is a seed before the rest is filled up with any rows. */
  method Seed(data: seq<Vector>, k: nat, dimension: nat) returns (seeds: array<Vector>, ghost filledUp: bool)
    requires Rectangular(data, dimension) && data != [] && 1 <= k
    ensures fresh(seeds) && seeds.Length == k && Elements(seeds[..]) <= Elements(data)
    ensures filledUp <==> |Elements(data)| < k
    ensures !filledUp ==> Different(seeds[..])
    ensures filledUp ==> Elements(seeds[..]) == Elements(data)
  {
    var drawn;
    seeds, drawn := DrawSeeds(data, k, dimension);
    filledUp := drawn < k;
    ghost var different := seeds[..drawn];
    DifferentAreCounted(different);
    FewerIn(Elements(different), Elements(data));
    assert drawn < k ==> Elements(different) == Elements(data);
    for index := drawn to k
      invariant seeds[..drawn] == different && Elements(seeds[..index]) <= Elements(data)
    {
      var any :| 0 <= any < |data|;
      seeds[index] := data[any];
      assert seeds[..index + 1] == seeds[..index] + [data[any]];
    }
    assert seeds[..k] == seeds[..] && different <= seeds[..];
  }
}
