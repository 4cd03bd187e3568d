# Dice-sum distributions, in Dafny

This project models the dice module of craw-daddy/Python-modules in two revisions: `dice.py` (2021) and `dice/dice.py` (2019). A die is either a number of sides `n`, with faces `1..n`, or an explicit list of faces. Faces may be zero, negative or repeated. The module provides four operations:

- `_mergeDiceDicts` merges two outcome-count dictionaries by discrete convolution. An empty dictionary is the identity.
- `diceDict` builds the outcome-count dictionary of a list of dice by divide and conquer. It shuffles the list in place, splits it at half its length, recurses on both halves and merges the results.
- `diceProb` divides every count by the total of the counts. In 2021 it can be exact: with `exact=True` it returns `Fraction`s. The model covers that mode.
- `roll` adds up one randomly chosen face per die.

The model has six modules:

- `Convolution`: the cross sum `Cross` of two face lists, and the convolution `Conv` of two outcome multisets, with its algebra (commutative, associative, distributes over union, size is the product). It also connects dictionaries `map<int, nat>` with multisets: `Bag` for dictionary to multiset, `ToMap` for the reverse.
- `Randomness`: the part of Python's `random` the code uses. A class `Random` holds a stream of raw draws and a position in it. Its `Shuffle` is the Fisher-Yates walk of `random.shuffle`, applied in place to an `array`.
- `Distributions`: what the code computes, stated on values.
  - `Merge` is the merge with its empty-identity rule.
  - `Dist` is the multiset of every sum of one face per die.
  - `DiceDictOf` is the dictionary, or the failure of the check on the number of sides.
  - `DiceProbOf` gives the exact probabilities.
  - `RollOf` gives a roll with given choices.
  - Lemmas about these: merge commutes and associates, the result does not depend on the order of the dice, totals, keys are exactly the reachable sums, the probabilities sum to one, and rolls.
- `PairCounts`: the pair count, meaning the sum of `d1[k1] * d2[k2]` over `k1 + k2 == x`, and its equality with the convolution.
- `Dice`: the 2021 functions as methods proved against `Distributions`.
  - `MergeDiceDicts` runs the two nested loops of `_mergeDiceDicts`.
  - `DiceDict` shuffles an `array<Die>` in place, slices it and recurses.
  - `DiceProb` computes exact probabilities.
  - `Roll` loops over the dice with the chosen face positions supplied by the caller.
- `DiceLegacy`: the 2019 functions. Its `_mergeDiceDicts`, `diceDict` and `roll` run the same code as in 2021, apart from the final sort. Each is a member with the contract of its 2021 counterpart and is proved by calling it. Its `diceProb` is modelled as its key set.

Errors are values. `Failure(NonPositiveSides)` stands for the `assert ... > 0` on a number of sides. `Failure(EmptyChoice)` stands for `random.choice` on an empty face list.

The model keeps some behaviour of the code that a reader might not expect:
- A die with an empty face list has the empty dictionary. The merge treats an empty dictionary as the identity, so that die drops out of `diceDict`.
- `roll` on the same die fails, because `random.choice` has nothing to choose from.

## Model

| member | source | states |
|---|---|---|
| Dice.MergeDiceDicts | dice.py:17-36 | An empty `d1` gives `d2` unchanged, and an empty `d2` gives `d1`. Otherwise the keys are exactly the pairwise sums of keys. The count of `x` is the sum of `d1[k1] * d2[k2]` over `k1 + k2 == x`, so colliding sums accumulate. The outcomes are the convolution of the two outcome multisets. With positive counts the result is `Merge` of the two. |
| DiceLegacy.MergeDiceDicts | dice/dice.py:16-32 | The 2019 merge: the same statement as `Dice.MergeDiceDicts`, the empty identity and the pairwise sums and products. |
| Dice.MergeStep | dice.py:28 | Picks a key of `d1` not yet done and runs its row. It keeps the invariant of the outer loop: the keys are the pairwise sums of the keys done, and the counts are their pair counts. The keys not yet done strictly decrease. |
| Dice.MergePairs | dice.py:27-36 | The nested loops over the keys of `d1` and then of `d2`. They end with keys equal to the pairwise sums and counts equal to the pair counts. They keep every count positive. |
| Dice.AddRow | dice.py:28-35 | One turn of the outer loop. After the row of key `k1`, the keys are the pairwise sums of the keys done so far and the counts are their pair counts. |
| Dice.AddPairs | dice.py:29-35 | The inner loop for one key `k1` with count `c1`. It adds `c1 * d2[k2]` to the entry of `k1 + k2` for every `k2`, leaves every other entry as it was, and adds exactly the sums `k1 + k2` as keys. |
| Dice.AddPair | dice.py:30-33 | One turn of the inner loop for key `k2`. It adds `c1 * d2[k2]` to the entry of `k1 + k2`, so the sums and counts of the row cover `k2` as well as the keys already done. |
| Dice.Accumulate | dice.py:33 | `newDict[newK] = newDict.get(newK, 0) + newV`. The entry of `k` grows by `v`, a missing key counts as 0, and every other entry keeps its count. |
| PairCounts.WaysProduct | dice.py:31 | The product `c1 * c2` that the code adds for one pair of keys equals `Ways(c1, c2)`, the count of pairs used in the proofs. |
| PairCounts.ConvCount | dice.py:27-36 | The pair count at `x` equals the multiplicity of `x` in the convolution of the outcomes of `d1` with those of `d2`. |
| Dice.MergedTotal | dice.py:27-36 | The counts of a merge add up to the product of the totals of `d1` and `d2`. |
| Distributions.MergeCommutes | dice.py:23-36 | The merge, with its empty-identity rule, is commutative. |
| Distributions.MergeAssoc | dice.py:23-36 | The merge, with its empty-identity rule, is associative. So the way a list is split does not change the merged result. |
| Convolution.ConvSize | dice.py:30-33 | A convolution has as many outcomes as the product of the sizes of its two arguments. |
| Dice.CountOf | dice.py:62 | `list.count`: the number of occurrences of `x` in `f`. |
| Dice.ExplicitDict | dice.py:59-63 | The keys are exactly the faces in the list, and each count is that face's number of occurrences. |
| Dice.UniformDict | dice.py:69 | The keys are exactly `1..n`, each with count 1. |
| Dice.SingleDieDict | dice.py:54-69 | One die: its dictionary is `DiceDictOf([d])`. That is the face multiplicities, `{1..n ↦ 1}`, or the failure when `n <= 0`. |
| Distributions.DiceDictUniform | dice.py:67-69 | An `n`-sided die alone succeeds exactly when `n > 0`. It then gives every `x` with `1 <= x <= n` once and nothing else. Otherwise it fails with `NonPositiveSides`. |
| Distributions.DiceDictExplicit | dice.py:59-63 | A die with a list of faces alone always succeeds. Its keys are exactly the faces, each counted as often as it is written. |
| Dice.DiceDict | dice.py:38-77 | The result is `DiceDictOf` of the dice as given. The caller's array is left shuffled: the same multiset of dice, in exactly the Fisher-Yates order the generator's draws dictate, and unchanged for fewer than two dice. A successful call consumes `DrawsOf(len)` draws. |
| DiceLegacy.DiceDict | dice/dice.py:34-73 | The 2019 `diceDict`: the dictionary of the dice as given, or the failure for `n <= 0`. The list is left shuffled in place with the same dice, and the successful call's draws are counted. |
| Dice.Slice | dice.py:74-75 | A slice is a fresh list holding exactly the elements `lo` to `hi - 1`. |
| Dice.SplitHalves | dice.py:73-75 | `diceList[:L]` and `diceList[L:]` with `L = int(len/2)`: two distinct fresh lists of lengths `L` and `len - L`, which together are the shuffled list. |
| Dice.MergeHalves | dice.py:76 | Merging the dictionaries of the two halves of a rearrangement of `s` gives the dictionary of `s`. |
| Dice.Half | dice.py:73 | `int(len/2)`: twice the half is the length, or the length minus one. |
| Dice.SplitMerges | dice.py:74-76 | Merging the dictionaries of the two halves of a permutation of the dice gives the dictionary of the whole list. |
| Dice.SplitFails | dice.py:74-75 | When one half fails the check on the number of sides, so does the whole list. |
| Distributions.DiceDictPermutation | dice.py:72 | The dictionary of a permutation of the dice is the dictionary of the dice, so the result does not depend on the shuffle. |
| Distributions.DiceDictFails | dice.py:68 | The dictionary fails exactly when some die is a number of sides `n <= 0`. |
| Distributions.DiceDictPositive | dice.py:38-77 | Every count of the dictionary is positive. |
| Distributions.DiceDictTotal | dice.py:52-76 | The counts add up to the product of the face counts of the dice that have faces, and to 0 when none has. When every die has a face, the total is the product over all the dice. |
| Distributions.DiceDictKeys | dice.py:38-77 | When every die has a face, `x` is a key exactly when some choice of one face per die sums to `x`. |
| Randomness.Random.RandBelow | dice.py:72 | The draw that `random.shuffle` makes for each position: a number below `n`, taken from the next raw draw, which it consumes. |
| Randomness.Random.Shuffle | dice.py:72 | `random.shuffle` rearranges the array in place into `Shuffled` of the old contents: the Fisher-Yates walk from the last position down to 1. It keeps the multiset of elements and consumes `len - 1` draws. |
| Randomness.ShuffledPermutes | dice.py:72 | Any Fisher-Yates shuffle, whatever the draws, is a permutation. |
| Dice.SumValues | dice.py:102 | `sum(result.values())` is the total of the counts. |
| Dice.DiceProb | dice.py:79-106 | An integer is recast as a one-die list. The result is `DiceProbOf` of the dice: each count over the total, or the dictionary's failure. A list argument is left shuffled as by `diceDict`: the same dice, in the Fisher-Yates order of the draws. A successful call consumes `DrawsOf(len)` draws. |
| Dice.SidesProb | dice.py:99-104 | An integer `n` stands for the list `[n]`. Its probabilities exist exactly when `n > 0`. They then have the keys `1..n`, each with probability `1/n`. |
| Distributions.DiceProbSumsToOne | dice.py:102-104 | For dice that pass the check on the number of sides, at least one of which has a face, the probabilities have exactly the keys of the dictionary. They share the positive denominator `s`, each is `Fraction(count, s)`, and their numerators add up to `s`, so they sum to one. |
| Distributions.ProbabilitiesSumToOne | dice.py:104 | For a non-empty dictionary of positive counts, the fractions over the total have that denominator and their numerators add up to it. |
| DiceLegacy.DiceProbKeys | dice/dice.py:75-95 | The 2019 `diceProb`: an integer is recast as a one-die list. It fails exactly when `diceDict` fails. Otherwise its keys are the keys of `diceDict`, which are also the keys of the exact probabilities. A list argument is left shuffled as by `diceDict`, and a successful call consumes `DrawsOf(len)` draws. |
| DiceLegacy.ProbKeysAreRolls | dice/dice.py:91-95 | When every die has a face, a value is a key of the probabilities exactly when some choice of one face per die sums to it. |
| Dice.Roll | dice.py:108-132 | With the chosen face positions given, the roll is `RollOf`. That is the sum of the chosen faces, the failure of the first die with `n <= 0`, or the failure of the first empty face list. |
| DiceLegacy.Roll | dice/dice.py:97-121 | The 2019 `roll` with the chosen positions given: the sum of the chosen faces, or the failure of the first die with `n <= 0` or with no faces. |
| Distributions.RollFails | dice.py:125-132 | A roll fails exactly when some die has no face. |
| Distributions.RollIsAKey | dice/dice.py:114-121 | A successful roll of at least one die is a key of the dictionary of the same dice. |
| Distributions.RollReaches | dice.py:125-132 | Every outcome of dice that all have faces is the result of some choice of faces. |

## Left out

- Float-mode probabilities are not modelled: `exact=False` in 2021, and the values of the 2019 `diceProb`. Floating-point division is outside the model. `DiceLegacy.DiceProbKeys` keeps only the key set, and its `sum(result.values())` is not computed.
- Dice.DiceProb: probabilities are kept as the pair `(count, s)`. Python's `Fraction(count, s)` reduces the pair by its greatest common divisor, so the model's values are equal as rationals, not as reduced pairs.
- `diceBarPlot` is not modelled: it only hands the dictionary to matplotlib.
- `random.seed()`: the generator's draws are a stream of naturals given when it is created.
- Randomness.Random.RandBelow takes the next draw modulo `n`. It does not model CPython's rejection sampling over `getrandbits`.
- Dice.Roll: each `random.choice` is given by the caller as a face position, so the generator is not used there.
- The `isinstance` assertions are not modelled: the `Die` and `DiceArg` datatypes rule out other shapes. The same goes for `roll` skipping elements that are neither a number nor a list.
- The sort at the end of the 2021 `diceDict` and `diceProb` is not modelled: it only orders the keys, and maps are unordered.
- Dict iteration order is left unspecified. The merge loops take the keys in an arbitrary order, and every order gives the same result.
- Dice.Half: it is `n / 2` on naturals. Python's `int(len(diceList)/2)` divides in floating point, which agrees for every length below 2^53.
- Dice.DiceDict: the generator's position after a failing call is not stated, because the recursion stops at the first failing half. After a successful call it is stated exactly.
- DiceLegacy.DiceDict: the same as for `Dice.DiceDict`: the position after a failing call is not stated.
- Dice.DiceProb: the same: the position after a failing call is not stated.
- DiceLegacy.DiceProbKeys: the same: the position after a failing call is not stated.
- The model assumes that the `assert n > 0` checks run. Under `python -O` they are skipped. Then `diceDict([0])` returns `{}`, which drops out of a merge, and `roll` raises `IndexError` from `random.choice(range(1, 1))`. The model does not cover that mode.
