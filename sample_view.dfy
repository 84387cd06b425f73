/**
 * The state a node of the forest reads its samples and candidate features
 * from: the neighbour-index matrix (one row per data point, one column per
 * neighbour), the identifiers of the selected data points, the selected
 * features and three counts fixed when the object is made.
 */
module SampleView {
  import opened FeatureRecord

  /** A candidate feature as a value: two neighbour slots and a projection type. */
  type Candidate = (int, int, int)

  /** The slots 0, ..., k - 1 of a neighbourhood of k points. */
  ghost function Slots(k: nat): (s: set<int>)
    ensures forall j :: j in s <==> 0 <= j < k
  {
    if k == 0 then {} else Slots(k - 1) + {k - 1}
  }

  /** The ordered pairs of distinct slots of a neighbourhood of k points. */
  ghost function SlotPairs(k: nat): (ps: set<(int, int)>)
  {
    set p1, p2 | 0 <= p1 < k && 0 <= p2 < k && p1 != p2 :: (p1, p2)
  }

  /**
   * Every feature a neighbourhood of k points offers under n projection
   * operations: two distinct neighbour slots and one operation.
   */
  ghost function CandidateSpace(k: nat, n: nat): (cs: set<Candidate>)
  {
    set p1, p2, t | 0 <= p1 < k && 0 <= p2 < k && p1 != p2 && 0 <= t < n :: (p1, p2, t)
  }

  /** The set of values f takes on s. */
  ghost function Image<A, B>(s: set<A>, f: A -> B): (image: set<B>)
  {
    set x | x in s :: f(x)
  }

  /** An injective map does not change the size of the set it is applied to. */
  lemma {:induction false} InjectiveImageSize<A, B>(s: set<A>, f: A -> B)
    requires forall x, y :: x in s && y in s && f(x) == f(y) ==> x == y
    ensures |Image(s, f)| == |s|
    decreases |s|
  {
    if s != {} {
      var x :| x in s;
      var rest := s - {x};
      InjectiveImageSize(rest, f);
      assert Image(s, f) == Image(rest, f) + {f(x)};
      assert f(x) !in Image(rest, f);
    }
  }

  lemma {:induction false} SlotsSize(k: nat)
    ensures |Slots(k)| == k
  {
    if k > 0 {
      SlotsSize(k - 1);
      assert Slots(k) == Slots(k - 1) + {k - 1};
    }
  }

  /** Two disjoint sets together are as large as both of them. */
  lemma DisjointUnionSize<T>(a: set<T>, b: set<T>)
    requires a * b == {}
    ensures |a + b| == |a| + |b|
  {
  }

  /** Pairs the new last slot m with an earlier slot, m first. */
  function FromLast(m: int): (pair: int -> (int, int))
  {
    j => (m, j)
  }

  /** Pairs an earlier slot with the new last slot m, m second. */
  function ToLast(m: int): (pair: int -> (int, int))
  {
    j => (j, m)
  }

  /** Adding slot m adds the pairs (m, j) and (j, m) for every earlier slot j. */
  lemma SlotPairsGrow(m: nat)
    ensures SlotPairs(m + 1) == SlotPairs(m) + Image(Slots(m), FromLast(m)) + Image(Slots(m), ToLast(m))
    ensures SlotPairs(m) * Image(Slots(m), FromLast(m)) == {}
    ensures (SlotPairs(m) + Image(Slots(m), FromLast(m))) * Image(Slots(m), ToLast(m)) == {}
  {
    var first := Image(Slots(m), FromLast(m));
    var second := Image(Slots(m), ToLast(m));
    forall pr | pr in SlotPairs(m + 1) ensures pr in SlotPairs(m) + first + second {
      var (p1, p2) := pr;
      if p1 == m {
        assert FromLast(m)(p2) == pr;
      } else if p2 == m {
        assert ToLast(m)(p1) == pr;
      } else {
        assert pr in SlotPairs(m);
      }
    }
    forall pr | pr in SlotPairs(m) + first + second ensures pr in SlotPairs(m + 1) {
      var (p1, p2) := pr;
      if pr in SlotPairs(m) {
        assert pr in SlotPairs(m + 1);
      } else if pr in first {
        assert p1 == m && 0 <= p2 < m;
      } else {
        assert p2 == m && 0 <= p1 < m;
      }
    }
  }

  /** Slot m is paired with each of the m earlier slots once in either order. */
  lemma NewSlotPairsSize(m: nat)
    ensures |Image(Slots(m), FromLast(m))| == m
    ensures |Image(Slots(m), ToLast(m))| == m
  {
    SlotsSize(m);
    forall x, y | FromLast(m)(x) == FromLast(m)(y) ensures x == y {
      assert (m, x) == (m, y);
    }
    InjectiveImageSize(Slots(m), FromLast(m));
    forall x, y | ToLast(m)(x) == ToLast(m)(y) ensures x == y {
      assert (x, m) == (y, m);
    }
    InjectiveImageSize(Slots(m), ToLast(m));
  }

  /** The arithmetic step from m to m + 1 slots, kept apart from the set reasoning. */
  lemma PairCountStep(m: nat)
    ensures m * (m - 1) + m + m == (m + 1) * m
  {
  }

  /** A neighbourhood of k points has k * (k - 1) ordered pairs of distinct slots. */
  lemma {:induction false} SlotPairsSize(k: nat)
    ensures |SlotPairs(k)| == k * (k - 1)
  {
    if k > 0 {
      var m := k - 1;
      var first, second := Image(Slots(m), FromLast(m)), Image(Slots(m), ToLast(m));
      SlotPairsSize(m);
      NewSlotPairsSize(m);
      SlotPairsGrow(m);
      DisjointUnionSize(SlotPairs(m), first);
      DisjointUnionSize(SlotPairs(m) + first, second);
      assert SlotPairs(k) == SlotPairs(m + 1);
      assert |SlotPairs(k)| == |SlotPairs(m)| + m + m;
      PairCountStep(m);
    }
  }

  /** Pairs a slot pair with the projection type t. */
  function Layer(t: int): (tag: ((int, int)) -> Candidate)
  {
    (pr: (int, int)) => (pr.0, pr.1, t)
  }

  /** Adding projection type m adds one copy of the slot pairs, tagged with m. */
  lemma CandidateSpaceGrow(k: nat, m: nat)
    ensures CandidateSpace(k, m + 1) == CandidateSpace(k, m) + Image(SlotPairs(k), Layer(m))
    ensures CandidateSpace(k, m) * Image(SlotPairs(k), Layer(m)) == {}
  {
    var layer := Image(SlotPairs(k), Layer(m));
    forall c | c in CandidateSpace(k, m + 1) ensures c in CandidateSpace(k, m) + layer {
      var (p1, p2, t) := c;
      if t == m {
        assert (p1, p2) in SlotPairs(k);
        assert Layer(m)((p1, p2)) == c;
      } else {
        assert c in CandidateSpace(k, m);
      }
    }
    forall c | c in layer ensures c in CandidateSpace(k, m + 1) {
      var pr :| pr in SlotPairs(k) && Layer(m)(pr) == c;
    }
  }

  /**
   * A neighbourhood of k points under n projection operations offers
   * k * (k - 1) * n distinct candidate features.
   */
  lemma {:induction false} CandidateSpaceSize(k: nat, n: nat)
    ensures |CandidateSpace(k, n)| == k * (k - 1) * n
  {
    if n > 0 {
      var m := n - 1;
      CandidateSpaceSize(k, m);
      SlotPairsSize(k);
      InjectiveImageSize(SlotPairs(k), Layer(m));
      CandidateSpaceGrow(k, m);
      DisjointUnionSize(CandidateSpace(k, m), Image(SlotPairs(k), Layer(m)));
      assert k * (k - 1) * n == k * (k - 1) * m + k * (k - 1);
    }
  }

  class Sample {
    /** Row i lists the identifiers of the nearest neighbours of point i. */
    var indexMat: array2<int>
    var selectedSamplesId: seq<int>
    var features: seq<Features>
    var numClass: int
    var numSelectedSamples: int
    var numFeature: int

    /** An object in a given state; the header's three constructors are not modelled. */
    constructor FromState(indexMat: array2<int>, selectedSamplesId: seq<int>, features: seq<Features>,
                          numClass: int, numSelectedSamples: int, numFeature: int)
      ensures this.indexMat == indexMat && this.selectedSamplesId == selectedSamplesId
      ensures this.features == features
      ensures this.numClass == numClass && this.numSelectedSamples == numSelectedSamples
      ensures this.numFeature == numFeature
    {
      this.indexMat := indexMat;
      this.selectedSamplesId := selectedSamplesId;
      this.features := features;
      this.numClass := numClass;
      this.numSelectedSamples := numSelectedSamples;
      this.numFeature := numFeature;
    }

    /** The number of classes the object keeps track of. */
    function GetNumClasses(): (r: int)
      reads this
      ensures r == numClass
    {
      numClass
    }

    /** The identifiers of the selected data points, as a copy. */
    function GetSelectedSamplesId(): (r: seq<int>)
      reads this
      ensures r == selectedSamplesId
    {
      selectedSamplesId
    }

    /** The stored number of selected data points. */
    function GetNumSelectedSamples(): (r: int)
      reads this
      ensures r == numSelectedSamples
    {
      numSelectedSamples
    }

    /** The features selected for the node. */
    function GetSelectedFeatures(): (r: seq<Features>)
      reads this
      ensures r == features
    {
      features
    }

    /** The number of features considered at each node. */
    function GetNumFeatures(): (r: int)
      reads this
      ensures r == numFeature
    {
      numFeature
    }

    /** The neighbourhood size k: the number of columns of the neighbour-index matrix. */
    function GetNeighborhoodSize(): (r: nat)
      reads this
      ensures r == indexMat.Length1
    {
      indexMat.Length1
    }

    /**
     * How many features a neighbourhood offers under numProjections projection
     * operations: the size of the candidate space, k * (k - 1) * numProjections.
     */
    function NumCandidateFeatures(numProjections: nat): (c: nat)
      reads this
      ensures c == |CandidateSpace(GetNeighborhoodSize(), numProjections)|
    {
      var k := GetNeighborhoodSize();
      CandidateSpaceSize(k, numProjections);
      k * (k - 1) * numProjections
    }
  }
}
