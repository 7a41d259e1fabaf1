/**
 The bounded eviction scan: instead of a whole table only its first 32 entries in `HashMap`
 order are examined. That order is arbitrary, so any 32 entries may be the sample.
 */
module Sampling {

  const EVICT_SAMPLE: nat := 32

  function SampleSize(n: nat): nat { if n < EVICT_SAMPLE then n else EVICT_SAMPLE }

  ghost predicate IsSample<T>(sample: set<T>, keys: set<T>) {
    sample <= keys && |sample| == SampleSize(|keys|)
  }

  /** Takes entries in arbitrary order until the sample is full. */
  method FirstEntries<T(==)>(keys: set<T>) returns (sample: set<T>)
    ensures IsSample(sample, keys)
  {
    sample := {};
    var left := keys;
    while left != {} && |sample| < EVICT_SAMPLE
      invariant sample !! left && sample + left == keys
      invariant |sample| <= EVICT_SAMPLE && |sample| + |left| == |keys|
      decreases |left|
    {
      var k :| k in left;
      sample, left := sample + {k}, left - {k};
    }
  }
}
