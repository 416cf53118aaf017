# nested_for: a verified model of the odometer generator

`nested_for(*fors, skip=None)` in generators.py enumerates the Cartesian
product of finite sequences ("dimensions") as nested for loops would. The
first dimension is the outermost loop and the last is the innermost, so
the last one varies fastest. The work happens in two steps:

1. **Snapshot and filter** (lines 14-25). Every dimension is copied. Then
   every occurrence of every value in `skip[i]` is removed from dimension
   `i`, using repeated `list.remove` until `ValueError` is raised.
2. **Odometer enumeration** (lines 26-43). If there are no dimensions, or
   any filtered dimension is empty, nothing is yielded. Otherwise the index
   vector `grab` starts at all zeros. Before each step the selected tuple is
   yielded. `grab` then advances by a mixed-radix increment with the last
   position least significant. Enumeration ends when the carry runs past
   position 0.

The Dafny modules follow that structure:

- `Optional`: the `Option` type. `None` stands for an absent `skip`, for
  the `ValueError` of `list.remove`, and for "the carry ran past position 0".
- `IndexVectors`: index vectors, bounds (`InBounds`), the all-zeros start,
  the all-maximum vector, and lexicographic order (`LexLess`) with its
  order lemmas.
- `Odometer`: `Step` defines the successor recursively. `Increment` is the
  carry loop of lines 36-43 as written, proved to agree with `Step`.
  Further lemmas show that `Step` is exactly the lexicographic successor and
  that it stops exactly at the greatest vector.
- `NestedLoops`: the reference. `Combinations` lists the index vectors that
  nested for loops visit, and `Product` counts them. The lemmas prove the
  list is complete, in bounds and strictly increasing, and that `Step`
  walks it from all zeros to its end.
- `Filter`: `Without` is the reference filter. `RemoveFirst` models
  `list.remove`. `RemoveEvery` is the `while True` / `ValueError` loop.
  `Snapshot` is lines 14-25 as written, proved equal to `Filtered`.
- `Generators`: `Enumerate` states what the generator yields. `NestedFor`
  runs the source's algorithm and is proved to yield exactly that. Further
  lemmas give the count, the emptiness condition, where each tuple's
  positions come from, and completeness.
- `Scenarios`: concrete calls with their full expected output.

The lazy stream is modelled as the sequence of every tuple it yields.
A tuple is a `seq<T>` whose length is the number of dimensions.

## Model

| member | source | states |
|---|---|---|
| Odometer.Step | generators.py:36-43 | Advancing an in-bounds index vector gives an in-bounds vector, or nothing once the carry passes position 0 |
| Odometer.Increment | generators.py:35-43 | The carry loop as written: it reports done exactly when `Step` gives nothing, and then leaves the vector all zeros. Otherwise it returns exactly `Step`'s successor |
| Odometer.StepShape | generators.py:36-43 | The increment finds the last position below its maximum, adds one there and resets every later position to 0 |
| Odometer.StepNoneIffMax | generators.py:38-42 | The carry passes position 0 exactly when every position holds the last index of its dimension |
| Odometer.StepIncreases | generators.py:36-43 | Each increment moves the index vector strictly forward in lexicographic order |
| Odometer.StepIsSuccessor | generators.py:36-43 | The increment yields the least in-bounds vector that is lexicographically greater than the current one, so no combination is skipped |
| Odometer.StepNoneIffLast | generators.py:41-42 | Enumeration stops exactly at the lexicographically greatest in-bounds vector, with no extra tuple on wrap-around |
| NestedLoops.CombinationsLength | generators.py:29-43 | The nested-loop enumeration has exactly as many index vectors as the product of the dimension lengths |
| NestedLoops.ProductZero | generators.py:26-27 | The product of the lengths is zero exactly when some dimension is empty |
| NestedLoops.CombinationsInBounds | generators.py:29-32 | Every enumerated index vector selects a valid element of every dimension |
| NestedLoops.CombinationsComplete | generators.py:1-2 | Every in-bounds index vector is enumerated, as in nested for loops |
| NestedLoops.CombinationsChained | generators.py:29-43 | With no dimension empty, starting from all zeros and incrementing visits exactly the nested-loop combinations in order, then stops |
| NestedLoops.CombinationsSorted | generators.py:36-43 | The combinations are strictly increasing in lexicographic order, so none repeats |
| Filter.WithoutContents | generators.py:18-25 | After filtering, no banned value remains, and every other value keeps its number of occurrences |
| Filter.WithoutAppend | generators.py:19-25 | Filtering distributes over concatenation, so survivors keep their relative order |
| Filter.WithoutUnchanged | generators.py:19-20 | A filter leaves a dimension unchanged exactly when none of its elements is banned, so banning absent values changes nothing |
| Filter.WithoutCompose | generators.py:18-19 | Removing the values of one ban list after another equals removing all of them at once, so one value at a time suffices |
| Filter.WithoutCount | generators.py:21-25 | Banning a value that occurs k times shortens the dimension by exactly k: all occurrences go, not just the first |
| Filter.FirstIndex | generators.py:23 | The index found holds the value, and no earlier index does |
| Filter.RemoveFirst | generators.py:23-24 | `list.remove` fails exactly when the value is absent. Otherwise it drops the first occurrence, keeping everything before and after it in order, so a filter for that value keeps the same elements |
| Filter.RemoveEvery | generators.py:21-25 | Repeating `remove` until `ValueError` removes every occurrence and nothing else, order preserved |
| Filter.FilteredShape | generators.py:14-25 | Filtering keeps the dimension count, and dimensions without a skip entry come through unchanged. An absent skip behaves like an empty one. Survivors are original non-banned elements with their multiplicities |
| Filter.Snapshot | generators.py:14-25 | The nested filter loops as written produce exactly the reference filtering of every dimension |
| Generators.NestedFor | generators.py:14-43 | The whole generator as written yields exactly `Enumerate`: nothing for zero dimensions, otherwise the tuples of all combinations of the filtered dimensions in nested-loop order |
| Generators.EnumerateCount | generators.py:26-43 | The number of tuples yielded is the product of the filtered lengths, or zero for zero dimensions |
| Generators.EnumerateEmpty | generators.py:26-27 | Nothing is yielded exactly when there are no dimensions or some filtered dimension is empty |
| Generators.EnumerateSelects | generators.py:32 | The k-th tuple is the one the k-th combination selects, and each position is drawn from that position's filtered dimension |
| Generators.EnumerateComplete | generators.py:1-2 | Every tuple whose positions come from the filtered dimensions is yielded |
| Scenarios.SkipMiddleLetter | generators.py:14-43 | Dimensions [1,3], ['a','b','c'], [2,4] with skip [[], ['a']] yield the eight tuples from (1,'b',2) to (3,'c',4), last position fastest |
| Scenarios.FullyBanned | generators.py:18-27 | A dimension emptied by its ban list yields nothing |
| Scenarios.NoDimensions | generators.py:26-27 | Zero dimensions yield nothing |
| Scenarios.EmptyDimension | generators.py:26-27 | An empty dimension yields nothing even when the others are not empty |
| Scenarios.OneEach | generators.py:29-43 | Dimensions [1], [2], [3] yield the single tuple (1,2,3) |

## Left out

- `Enumerate` and its lemmas (`EnumerateCount`, `EnumerateEmpty`, `EnumerateSelects`, `EnumerateComplete`) are stated for every `skip`. They describe the program only when `SkipFits` holds, because otherwise it raises `IndexError` first.
- Laziness: the `yield` at line 33 suspends the generator. The model gives the whole sequence of yielded tuples instead, so partial consumption and independence between calls are not modelled.
- Materialising arbitrary iterables with `list(x)[:]` (line 17): dimensions are taken as finite `seq<T>` values. Infinite or one-shot iterables and the copy-versus-alias question do not arise under value semantics.
- The `IndexError` at line 20 is a precondition (`Filter.SkipFits`), not a modelled error. It is exactly the source's condition: skip entries past the last dimension must be empty. A longer skip whose extra entries are empty is accepted, as the code accepts it. The docstring (lines 4-7) only says that skip may be shorter than the dimension list.
- Python equality: `in` and `list.remove` compare by identity, then by `==`, and may raise on incomparable objects. The model uses Dafny equality on a type `T(==)`.
- Python's unbounded `int` for the index vector is modelled by `nat`; no wrap-around arises.
