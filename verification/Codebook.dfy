/** A vocabulary of visual words: sampled descriptors, k-means++ seeds, k-means iterations. */
module Codebook {
  import opened Vectors
  import opened KMeans
  import opened Seeding
  import opened Collections
  import opened Wrappers

  datatype Problem = NoDescriptors | BadClusterCount | BadIterationCount | SampleTooSmall | TooFewDescriptors

  datatype Result = Built(centres: seq<Vector>) | Refused(problem: Problem)

  /** What is wrong with the arguments, in the order in which they are looked at. */
  function Objection(descriptors: nat, dimension: nat, k: int, maxDescriptors: Option<int>, maxIterations: int): Option<Problem> {
    if descriptors == 0 || dimension == 0 then Some(NoDescriptors)
    else if k < 1 then Some(BadClusterCount)
    else if maxIterations < 1 then Some(BadIterationCount)
    else if maxDescriptors.Some? && maxDescriptors.value < k then Some(SampleTooSmall)
    else if descriptors < k then Some(TooFewDescriptors)
    else None
  }

  /** Some of the rows, in their order, each at most once. */
  ghost predicate Sampled(data: seq<Vector>, positions: seq<nat>) {
    && (forall i | 0 <= i < |positions| :: positions[i] < |data|)
    && (forall i, j | 0 <= i < j < |positions| :: positions[i] < positions[j])
  }

  function Pick(data: seq<Vector>, positions: seq<nat>): seq<Vector>
    requires forall i | 0 <= i < |positions| :: positions[i] < |data|
  {
    seq(|positions|, i requires 0 <= i < |positions| => data[positions[i]])
  }

  /** As many positions as asked for, chosen at random and put in order. */
  method Sample(data: seq<Vector>, size: nat) returns (positions: seq<nat>)
    requires size <= |data|
    ensures Sampled(data, positions) && |positions| == size
  {
    positions := [];
    var next: nat := 0;
    while |positions| < size
      invariant Sampled(data, positions) && |positions| <= size && next + (size - |positions|) <= |data|
      invariant forall i | 0 <= i < |positions| :: positions[i] < next
      decreases |data| - next
    {
      var skip: bool := *;
      if !skip || |data| - next == size - |positions| {
        positions := positions + [next];
      }
      next := next + 1;
    }
  }

  /** Builds a codebook of `k` words, or says what is wrong. The words come from seeds among the sampled
      rows by iterations that end when they should; they describe the sample at least as well as the
      seeds did. */
  method BuildCodebook(descriptors: seq<Vector>, dimension: nat, k: int, maxDescriptors: Option<int>, maxIterations: int,
                       tolerance: real, block: nat)
    returns (r: Result, ghost positions: seq<nat>, ghost history: seq<seq<Vector>>)
    requires Rectangular(descriptors, dimension) && 1 <= block
    ensures r.Refused? <==> Objection(|descriptors|, dimension, k, maxDescriptors, maxIterations).Some?
    ensures r.Refused? ==> Some(r.problem) == Objection(|descriptors|, dimension, k, maxDescriptors, maxIterations)
    ensures r.Built? <==>
              && descriptors != [] && dimension != 0 && 1 <= k <= |descriptors| && 1 <= maxIterations
              && (maxDescriptors.Some? ==> k <= maxDescriptors.value)
    ensures Sampled(descriptors, positions)
    ensures r.Built? ==>
              var data := Pick(descriptors, positions);
              && |positions| == (if maxDescriptors.Some? && maxDescriptors.value < |descriptors|
                                 then maxDescriptors.value else |descriptors|)
              && |r.centres| == k && Rectangular(r.centres, dimension)
              && Steps(data, k, history, dimension) && Stopped(data, k, history, maxIterations, tolerance, dimension)
              && r.centres == history[|history| - 1]
              && Elements(history[0]) <= Elements(data) && (k <= |Elements(data)| ==> Different(history[0]))
              && Potential(data, r.centres, dimension, |data|) <= Potential(data, history[0], dimension, |data|)
  {
    positions, history := [], [];
    var objection := Objection(|descriptors|, dimension, k, maxDescriptors, maxIterations);
    if objection.Some? {
      return Refused(objection.value), positions, history;
    }
    var size := if maxDescriptors.Some? && maxDescriptors.value < |descriptors| then maxDescriptors.value else |descriptors|;
    var chosen := Sample(descriptors, size);
    var data := Pick(descriptors, chosen);
    var sown, filledUp := Seed(data, k, dimension);
    var seeds := sown[..];
    forall j | 0 <= j < |seeds|
      ensures |seeds[j]| == dimension
    {
      assert seeds[j] in Elements(seeds);
    }
    var centres, course, _ := Iterate(data, seeds, maxIterations, tolerance, block, dimension);
    positions, history := chosen, course;
    r := Built(centres);
  }
}
