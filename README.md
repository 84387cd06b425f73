# Sampling substrate of a neighbourhood-based random forest, in Dafny

This project models `Sample.h` of a random-forest classifier for point clouds.
A tree node tests candidate features. A feature is two points of a neighbourhood
plus a projection operation. The header holds three pieces of logic:

- `Random` draws `sampleSize` values from the population `{0, ..., popSize - 1}`
  without replacement. It lists the population in increasing order, shuffles it
  in place and keeps the first `sampleSize` elements.
- `Features` is a record of two neighbour slots and a projection type. Its default
  constructor zeroes all three fields. Its assignment operator copies the two
  slots only and keeps the target's own projection type; the model keeps that
  behaviour.
- `Sample` keeps the neighbour-index matrix, the selected point identifiers, the
  selected features and three counts. It reads them back through inline getters.
  Its doc comment counts the possible features of a neighbourhood of `k` points
  under `n` projection operations as `k*(k-1)*n`.

Files:

- `subset_sampling.dfy` (module `SubsetSampling`): the population, the shuffle
  and the class `Random`. It proves that the shuffled array stays a permutation
  of the population. It also proves that a returned sample has the requested
  length, is duplicate-free and stays in range.
- `features.dfy` (module `FeatureRecord`): the class `Features`.
- `sample_view.dfy` (module `SampleView`): the class `Sample` with its getters,
  and the candidate-feature space with its size proved to be `k*(k-1)*n`.

The random generator (a fresh `std::random_device` seeding `std::mt19937` on
each call) becomes a nondeterministic choice of the swap partner. Every property
proved about a sample therefore holds for every outcome of the random draws.

The header's code checks nothing: a negative sample size, or one larger than the
population (which is empty when `popSize` is negative), makes the iterator range
it copies invalid. `SampleWithoutReplacement` therefore requires
`0 <= sampleSize <= |Population(popSize)|`, so `Random(-1, 0)` is accepted and
returns an empty sample.

## Model

| member | source | states |
|---|---|---|
| `SubsetSampling.Population` | Sample.h:138-142 | the candidates are `0, 1, ..., n - 1` in increasing order: the length is `n` (0 when `n` is negative) and element `i` is `i` |
| `SubsetSampling.PopulationMembers` | Sample.h:138-142 | a value is a candidate exactly when it lies in `[0, n)`, and no candidate occurs twice |
| `SubsetSampling.DistinctIffSingleOccurrences` | Sample.h:110-115 | a sequence has no repeated value exactly when each value occurs at most once in its multiset |
| `SubsetSampling.SubMultisetIsDistinctInRange` | Sample.h:110-115 | anything drawn from the population without replacement (a sub-multiset) is duplicate-free and in `[0, n)` |
| `SubsetSampling.DistinctInRangeIsSubMultiset` | Sample.h:110-115 | conversely, a duplicate-free sequence of values in `[0, n)` is a sub-multiset of the population |
| `SubsetSampling.SubMultisetOfPopulation` | Sample.h:110-115 | both directions: drawn without replacement from the population if and only if duplicate-free and in range |
| `SubsetSampling.PermutationOfPopulation` | Sample.h:132 | a sequence is a permutation of the population if and only if it is as long as the population, duplicate-free and in range |
| `SubsetSampling.Shuffle` | Sample.h:130-132 | shuffling in place only reorders the array: the multiset of its elements, and so its length, is unchanged |
| `SubsetSampling.Random.constructor` | Sample.h:120-123 | stores the population size and the sample size unchecked |
| `SubsetSampling.Random.Candidates` | Sample.h:138-142 | appends exactly the population `0, ..., popSize - 1` after what the vector already holds, element `|nums| + i` being `i` |
| `SubsetSampling.Random.SampleWithoutReplacement` | Sample.h:125-135 | for `0 <= sampleSize <=` the population's size (0 when `popSize` is negative), returns exactly `sampleSize` values, pairwise distinct, each in `[0, popSize)`, a sub-multiset of the population, and the whole population permuted when the sample size equals the population's size |
| `FeatureRecord.Features.constructor` | Sample.h:14-18 | a new record has both points and the projection type at 0 |
| `FeatureRecord.Features.Assign` | Sample.h:20-24 | the target takes the source's two points and keeps its own projection type; the source is unchanged, also under self-assignment |
| `SampleView.Sample.GetNumClasses` | Sample.h:74 | the stored number of classes |
| `SampleView.Sample.GetSelectedSamplesId` | Sample.h:77-78 | the stored identifiers of the selected points, as a value |
| `SampleView.Sample.GetNumSelectedSamples` | Sample.h:81 | the stored count of selected points, which is kept apart from the identifier vector |
| `SampleView.Sample.GetSelectedFeatures` | Sample.h:84 | the stored selected features |
| `SampleView.Sample.GetNumFeatures` | Sample.h:87 | the stored number of features considered at each node |
| `SampleView.Sample.GetNeighborhoodSize` | Sample.h:88 | the neighbourhood size is the column count of the neighbour-index matrix |
| `SampleView.SlotPairsSize` | Sample.h:58-63 | a neighbourhood of `k` points has `k*(k-1)` ordered pairs of distinct points |
| `SampleView.CandidateSpaceSize` | Sample.h:58-63 | the set of candidate features (two distinct neighbour slots and one of `n` projection types) has exactly `k*(k-1)*n` members |
| `SampleView.Sample.NumCandidateFeatures` | Sample.h:58-63 | `k*(k-1)*n`, with `k` the neighbourhood size, is the number of distinct candidate features of the neighbourhood |

## Left out

- The entropy source (`std::random_device`, `std::mt19937`): replaced by a nondeterministic swap partner, so uniformity and independence of samples are not stated.
- `SubsetSampling.Shuffle`: models the Fisher-Yates shape of `std::shuffle`, not the library's exact sequence of draws; only the permutation property is claimed.
- The three `Sample` constructors, `randomSampleDataset`, `randomSampleFeatures` and `buildNeighborhood`: only declared in the header; their bodies are in an implementation file that is not part of this model. `Sample.FromState` only puts an object into a given state so that the getters have something to read.
- The mapping from a linear candidate index to `(point1, point2, featType)` and the `(k, d)` shape of a neighbourhood: these belong to the bodies above; only the candidate count of the doc comment is modelled.
- The dataset, the labels and the distance matrix: floating-point data (or integer data with no logic over it in this header) behind raw pointers; only the integer neighbour-index matrix is kept.
- Raw pointers, object lifetimes and the aliasing between `Sample` objects: memory management with no behaviour in the header.
- `SampleView.Sample.GetSelectedFeatures`: returns the object's own `Features` records, where the header returns a vector of copies; a Dafny function cannot allocate new objects.
- `SubsetSampling.Random.Candidates`: the header appends to a vector passed by reference; the model takes the vector's contents and returns them extended.
- 32-bit integer width: counts and identifiers are unbounded integers, and the narrowing of the matrix column count to `int` is not modelled; the loop counter of `candidates` never exceeds `popSize`, so no overflow is hidden.
