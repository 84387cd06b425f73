/**
 * Sampling without replacement from the population {0, ..., popSize - 1}:
 * the population is materialised in increasing order, shuffled in place and
 * cut to its first sampleSize elements.
 *
 * The entropy source of the header (a fresh random device seeding a
 * Mersenne twister on every call) is replaced by a nondeterministic choice of
 * the swap partner, so every property proved here holds for every outcome of
 * the random draws.
 */
module SubsetSampling {

  /** No value occurs twice in s. */
  predicate Distinct(s: seq<int>)
  {
    forall i, j :: 0 <= i < j < |s| ==> s[i] != s[j]
  }

  /** Every value of s is a member of the population {0, ..., n - 1}. */
  predicate InRange(s: seq<int>, n: int)
  {
    forall i :: 0 <= i < |s| ==> 0 <= s[i] < n
  }

  /**
   * The population 0, 1, ..., n - 1 in increasing order, as the candidate
   * loop produces it; a negative population size gives no candidates.
   */
  function Population(n: int): (p: seq<int>)
    ensures |p| == if n < 0 then 0 else n
    ensures forall i :: 0 <= i < |p| ==> p[i] == i
    decreases n
  {
    if n <= 0 then [] else Population(n - 1) + [n - 1]
  }

  /** A sequence is duplicate-free exactly when no value occurs in it more than once. */
  lemma {:induction false} DistinctIffSingleOccurrences(s: seq<int>)
    ensures Distinct(s) <==> forall v :: multiset(s)[v] <= 1
  {
    if s != [] {
      var rest := s[1..];
      assert s == [s[0]] + rest;
      assert multiset(s) == multiset{s[0]} + multiset(rest);
      DistinctIffSingleOccurrences(rest);
      if Distinct(s) {
        assert Distinct(rest) by {
          forall i, j | 0 <= i < j < |rest| ensures rest[i] != rest[j] {
            assert rest[i] == s[i + 1] && rest[j] == s[j + 1];
          }
        }
        assert s[0] !in rest by {
          forall i | 0 <= i < |rest| ensures rest[i] != s[0] {
            assert rest[i] == s[i + 1];
          }
        }
        forall v ensures multiset(s)[v] <= 1 {
          if v == s[0] {
            assert multiset(rest)[v] == 0;
          }
        }
      } else {
        var i, j :| 0 <= i < j < |s| && s[i] == s[j];
        var v := s[i];
        assert v in rest by {
          assert rest[j - 1] == s[j];
        }
        if i == 0 {
          assert multiset(rest)[v] >= 1;
          assert multiset(s)[v] >= 2;
        } else {
          assert !Distinct(rest) by {
            assert rest[i - 1] == s[i] && rest[j - 1] == s[j];
          }
          var w :| multiset(rest)[w] > 1;
          assert multiset(s)[w] > 1;
        }
      }
    }
  }

  /** The members of the population are exactly 0, ..., n - 1, each occurring once. */
  lemma PopulationMembers(n: int)
    ensures forall v :: v in Population(n) <==> 0 <= v < n
    ensures forall v :: multiset(Population(n))[v] <= 1
  {
  }

  /** What is drawn from the population without replacement is duplicate-free and in range. */
  lemma SubMultisetIsDistinctInRange(s: seq<int>, n: int)
    requires multiset(s) <= multiset(Population(n))
    ensures Distinct(s) && InRange(s, n)
  {
    var p := Population(n);
    PopulationMembers(n);
    forall i | 0 <= i < |s| ensures 0 <= s[i] < n {
      assert s[i] in multiset(s);
      assert s[i] in p;
    }
    forall v ensures multiset(s)[v] <= 1 {
      assert multiset(s)[v] <= multiset(p)[v];
    }
    DistinctIffSingleOccurrences(s);
  }

  /** A duplicate-free sequence of population members is drawn from it without replacement. */
  lemma DistinctInRangeIsSubMultiset(s: seq<int>, n: int)
    requires Distinct(s) && InRange(s, n)
    ensures multiset(s) <= multiset(Population(n))
  {
    var p := Population(n);
    PopulationMembers(n);
    DistinctIffSingleOccurrences(s);
    forall v ensures multiset(s)[v] <= multiset(p)[v] {
      if v in s {
        var i :| 0 <= i < |s| && s[i] == v;
        assert v in p;
      }
    }
  }

  /**
   * A sequence draws its values from the population without replacement
   * exactly when it is duplicate-free and stays inside the population.
   */
  lemma SubMultisetOfPopulation(s: seq<int>, n: int)
    ensures multiset(s) <= multiset(Population(n)) <==> Distinct(s) && InRange(s, n)
  {
    if multiset(s) <= multiset(Population(n)) {
      SubMultisetIsDistinctInRange(s, n);
    }
    if Distinct(s) && InRange(s, n) {
      DistinctInRangeIsSubMultiset(s, n);
    }
  }

  /**
   * A sequence is a permutation of the population exactly when it is
   * duplicate-free, stays inside the population and is as long as it.
   */
  lemma PermutationOfPopulation(s: seq<int>, n: int)
    ensures multiset(s) == multiset(Population(n))
            <==> |s| == |Population(n)| && Distinct(s) && InRange(s, n)
  {
    var p := Population(n);
    SubMultisetOfPopulation(s, n);
    if |s| == |p| && Distinct(s) && InRange(s, n) {
      var rest := multiset(p) - multiset(s);
      assert multiset(p) == multiset(s) + rest;
      assert |rest| == 0;
    }
  }

  /**
   * A Fisher-Yates shuffle standing for the standard library's shuffle,
   * whose exact algorithm the library leaves open. The swap partner is
   * chosen nondeterministically in place of the random generator.
   */
  method Shuffle(a: array<int>)
    modifies a
    ensures multiset(a[..]) == multiset(old(a[..]))
  {
    var i := a.Length;
    while i > 1
      invariant 0 <= i <= a.Length
      invariant multiset(a[..]) == multiset(old(a[..]))
    {
      i := i - 1;
      var j :| 0 <= j <= i;
      a[i], a[j] := a[j], a[i];
    }
  }

  /** Draws sampleSize members of {0, ..., popSize - 1} without replacement. */
  class Random {
    const popSize: int
    const sampleSize: int

    /** Stores both sizes; neither is checked here. */
    constructor (popSize: int, sampleSize: int)
      ensures this.popSize == popSize && this.sampleSize == sampleSize
    {
      this.popSize := popSize;
      this.sampleSize := sampleSize;
    }

    /**
     * Appends 0, 1, ..., popSize - 1 to the caller's vector nums and hands
     * back the vector as it then stands.
     */
    method Candidates(nums: seq<int>) returns (extended: seq<int>)
      ensures extended == nums + Population(popSize)
      ensures |extended| == |nums| + |Population(popSize)|
      ensures forall i :: |nums| <= i < |extended| ==> extended[i] == i - |nums|
    {
      extended := nums;
      var i := 0;
      while i < popSize
        invariant 0 <= i
        invariant i <= popSize || i == 0
        invariant extended == nums + Population(i)
      {
        extended := extended + [i];
        i := i + 1;
      }
      assert Population(i) == Population(popSize);
    }

    /**
     * Shuffles the whole population and keeps its first sampleSize elements.
     * The header copies that prefix without checking sampleSize: a negative
     * size, or one larger than the population (which is empty when popSize
     * is negative), makes the copied iterator range invalid, so such a size
     * is the caller's error.
     */
    method SampleWithoutReplacement() returns (samples: seq<int>)
      requires 0 <= sampleSize <= |Population(popSize)|
      ensures |samples| == sampleSize
      ensures Distinct(samples)
      ensures InRange(samples, popSize)
      ensures multiset(samples) <= multiset(Population(popSize))
      ensures sampleSize == |Population(popSize)| ==> multiset(samples) == multiset(Population(popSize))
    {
      var population := Candidates([]);
      var a := new int[|population|](i requires 0 <= i < |population| => population[i]);
      assert a[..] == population;
      Shuffle(a);
      samples := a[..sampleSize];
      assert a[..] == samples + a[sampleSize..];
      assert multiset(samples) <= multiset(a[..]) == multiset(Population(popSize));
      SubMultisetIsDistinctInRange(samples, popSize);
    }
  }
}
