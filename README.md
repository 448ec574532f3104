# Comet mapping resolver, modelled in Dafny

The `comet` package resolves a downstream container image name to an upstream build target. It reads a small registry of mappings. Each mapping has a target image (`to`) and the components (`from`: name and repo) known to map to it.

Three operations make up the package:

- **GuessComet** picks the mapping whose target or candidate repos are closest to the queried image, by weighted Levenshtein distance.
- **Persist** records a newly confirmed component under an existing target.
- **DistanceForStrings** is the edit distance both of them rely on.

The project has two modules.

- `Levenshtein` (`levenshtein.dfy`) covers `pkg/comet/levenshtein.go`:
  - `EditOperation` with its printable names.
  - `Options` and `DefaultOptions`.
  - The full weighted-Levenshtein recurrence as a recursive grid function, `Cell` / `Distance`.
  - `DistanceForStrings` as an imperative method over a two-row `array2<int>` that rolls its rows with `i % 2`, exactly as the Go code does. Its loop invariant ties each buffer row to a row of the grid, and it is proved to return `Distance`.
  - Lemmas for the empty-string cases, non-negativity, zero distance to self, symmetry, the upper bound, the fact that a substitution costing at least an insert plus a delete never helps, and a configuration that breaks symmetry.
- `Comets` (`comet.dfy`) covers `pkg/comet/comet.go`:
  - `ImageName`, the normaliser that drops everything up to the first `/`.
  - The selection loop of `GuessComet`, as a method proved equal to the fold `Guessed`.
    - `Guessed` takes the metric as a parameter. The program uses `EditDistance`, which is `Distance` under `DefaultOptions`.
    - Lemmas characterise `Guessed` for every metric: it fails exactly when no entry is eligible; it otherwise selects an eligible entry reaching the minimum score; and ties go to the earliest entry.
  - The find-and-append loop of `Persist`, as a method proved equal to `Persisted`. Lemmas cover the not-found case, the change to the first matching entry only, idempotence, and a serialised sequence of calls that loses no update.

The loaded list is an input `seq<Comet>`. `Persist` returns `Result<seq<Comet>>`:
- `Success(list)` is the full list written back to the file;
- `Failure(NotFound)` means nothing is written.

`GuessComet` returns the position of the chosen entry, which stands for Go's `&comets[idx]`, or `Failure(NoMatch)`.

## Model

| member | source | states |
|---|---|---|
| Levenshtein.OperationName | pkg/comet/levenshtein.go:70-79 | "match", "ins" and "sub" exactly for Match, Ins and Sub; "del" exactly for every other value |
| Levenshtein.IdenticalRunesIsEquivalence | pkg/comet/levenshtein.go:47-51 | the default match predicate is reflexive and symmetric, the two facts DistanceToSelf and DistanceSymmetric require of a match predicate |
| Levenshtein.DistanceForStrings | pkg/comet/levenshtein.go:85-123 | the two-row buffer returns cell (len source, len target) of the weighted recurrence: boundary row j*InsCost, boundary column i*DelCost, each inner cell the minimum of delete, match/substitute and insert; the loop invariant is that row (i-1)%2 holds row i-1 of the grid |
| Levenshtein.DistanceFromEmpty | pkg/comet/levenshtein.go:98-104 | an empty source costs len(target)*InsCost; an empty target costs len(source)*DelCost |
| Levenshtein.CellNonNegative | pkg/comet/levenshtein.go:112-119 | with non-negative costs every grid cell is non-negative |
| Levenshtein.DistanceNonNegative | pkg/comet/levenshtein.go:112-119 | with non-negative costs the distance is never negative |
| Levenshtein.CellDiagonalZero | pkg/comet/levenshtein.go:112-119 | cell (i, i) of a string against itself is 0 when matching is reflexive and costs are non-negative |
| Levenshtein.DistanceToSelf | pkg/comet/levenshtein.go:47-51 | a string is at distance 0 from itself under a reflexive match predicate such as IdenticalRunes, with non-negative costs |
| Levenshtein.CellSymmetric | pkg/comet/levenshtein.go:112-119 | with equal insert and delete costs and a symmetric match predicate, cell (i, j) of (s, t) equals cell (j, i) of (t, s) |
| Levenshtein.DistanceSymmetric | pkg/comet/levenshtein.go:85-123 | with equal insert and delete costs and a symmetric match predicate the distance is symmetric |
| Levenshtein.AsymmetricCostsBreakSymmetry | pkg/comet/levenshtein.go:98-104 | with insert cost 1 and delete cost 2, "" to "a" costs 1 while "a" to "" costs 2 |
| Levenshtein.CellUpperBound | pkg/comet/levenshtein.go:98-119 | a cell never exceeds deleting all i characters and inserting all j |
| Levenshtein.DistanceUpperBound | pkg/comet/levenshtein.go:85-123 | the distance is at most len(source)*DelCost + len(target)*InsCost |
| Levenshtein.CellDeleteStep | pkg/comet/levenshtein.go:113 | moving down one row costs at most one deletion |
| Levenshtein.CellWithoutSubstitution | pkg/comet/levenshtein.go:112-119 | when SubCost >= InsCost + DelCost every cell equals the insert/delete-only cell |
| Levenshtein.SubstitutionNeverCheaper | pkg/comet/levenshtein.go:60-68 | when substitution costs at least a delete plus an insert, the distance equals the insert/delete-only distance |
| Levenshtein.DefaultDistance | pkg/comet/levenshtein.go:63-68 | under DefaultOptions the distance is between 0 and len(source)+len(target), 0 on equal strings, symmetric, and equal to the insert/delete-only distance |
| Comets.IndexRuneFindsFirst | pkg/comet/comet.go:129 | IndexRune gives the first position of the character, or -1 exactly when it does not occur |
| Comets.ImageNameDropsFirstSegment | pkg/comet/comet.go:127-133 | the result is a suffix of the input; with no '/' it is the whole input; with a '/' it is strictly shorter and starts right after the first '/' |
| Comets.ImageNameAfterFirstSlash | pkg/comet/comet.go:127-133 | for a prefix without '/', the name of prefix + "/" + rest is rest |
| Comets.ContainsEmpty | pkg/comet/comet.go:51 | the empty string occurs in every string, so an empty filter makes every entry eligible |
| Comets.ImageNameExamples | pkg/comet/comet.go:127-133 | "a/b/c" gives "b/c", "a/" gives "", "single" gives "single" |
| Comets.ScanTakesMinimum | pkg/comet/comet.go:54-65 | offering an entry's scores in turn replaces the best so far only when their minimum is strictly smaller, and then the entry's index is taken |
| Comets.SelectIsFirstMinimum | pkg/comet/comet.go:47-68 | the scan over entries selects nothing iff no entry is eligible; otherwise it selects an eligible entry whose best score is at most every eligible score and strictly below the best score of every earlier eligible entry |
| Comets.GuessedFailsIffNoneEligible | pkg/comet/comet.go:49-53 | for any metric, the lookup fails with NoMatch exactly when no entry's normalised target contains the filter; with an empty filter every entry is eligible and it fails exactly on the empty list |
| Comets.GuessedSelectsMinimum | pkg/comet/comet.go:49-65 | for any metric, a successful lookup returns an index into the list, of an eligible entry, whose best score is at most every score of every eligible entry (candidates scored image to repo, target scored target to image) |
| Comets.GuessedPrefersEarliest | pkg/comet/comet.go:56-64 | for any metric, every eligible entry before the selected one has a strictly larger best score |
| Comets.GuessedRespectsMetric | pkg/comet/comet.go:56-62 | the lookup depends only on the values the metric gives, so metrics that agree everywhere select the same entry |
| Comets.GuessedSingleEligible | pkg/comet/comet.go:47-73 | for any metric, a one-entry list whose entry is eligible resolves to that entry |
| Comets.ServingActivatorResolves | pkg/comet/comet.go:47-73 | a one-entry list with target "openshift-serverless-1/serving-activator-rhel8" resolves any image under filter "rhel8" to that entry, under the edit distance |
| Comets.OfferEntry | pkg/comet/comet.go:49-64 | an entry whose normalised target lacks the filter leaves the best score and index unchanged; an eligible entry, scored first on every candidate repo (image to repo) and then on its target (target to image) with DistanceForStrings under DefaultOptions, yields the scan over its edit-distance scores |
| Comets.SelectEntry | pkg/comet/comet.go:46-65 | the loop over all entries, offering each in turn from no best score and index -1, ends at the index the specified selection picks |
| Comets.GuessComet | pkg/comet/comet.go:47-73 | the lookup loop returns exactly the specified selection under the edit distance with DefaultOptions (stated for every metric equal to it, and EditDistanceMeasures shows EditDistance is one) |
| Comets.FirstWithTo | pkg/comet/comet.go:86-87 | the position of the first entry with the target, or none exactly when no entry has it |
| Comets.Persist | pkg/comet/comet.go:85-105 | the find-and-append loop with its found flag returns exactly the specified outcome |
| Comets.PersistFailsWithoutTarget | pkg/comet/comet.go:86-105 | Persist fails with NotFound, writing nothing, exactly when no entry has the target |
| Comets.PersistChangesFirstMatchOnly | pkg/comet/comet.go:86-101 | only the first entry with the target changes; from is appended at the end of its components iff no component has its name, otherwise that entry is unchanged; every other entry is unchanged |
| Comets.PersistIdempotent | pkg/comet/comet.go:88-99 | a second Persist of the same component writes the same list as the first |
| Comets.PersistExtends | pkg/comet/comet.go:85-105 | every outcome keeps each entry in place with its target and existing components; a successful call leaves the component recorded under the target |
| Comets.RecordedStable | pkg/comet/comet.go:86-99 | extending a list never loses a component already recorded under a target |
| Comets.PersistAllKeepsEveryComponent | pkg/comet/comet.go:76-78 | calls serialised by the lock lose no update: what was recorded stays recorded, and every request whose target exists is recorded at the end |

## Left out

- Reading and parsing the YAML file (`loadComets`, pkg/comet/comet.go:114-125) and marshalling it back (pkg/comet/comet.go:69, 102) are a foreign library and file I/O. The loaded list is an input, and the list written back is Persist's success value.
- The write itself and its failure (pkg/comet/comet.go:107-109) are I/O. The model has no I/O error.
- Error message texts, including the YAML dump of the list, are left out. Errors are the two outcomes `NoMatch` and `NotFound`.
- The `cometFileLock` mutex (pkg/comet/comet.go:17-19, 38-39, 77-78) is not modelled as a lock. Each call is one atomic step, and `PersistAll` composes calls in lock order.
- `Guess.FilePath` only names the file to load, so it is not modelled.
- cmd/generate/generate.go is not part of this model. It is command-line, templating and network glue.
- The fixture cases in pkg/comet/comet_test.go depend on the contents of a `comet.yaml` data file, so they are not modelled. `ServingActivatorResolves` covers a one-entry list whose target is openshift-serverless-1/serving-activator-rhel8.
- Levenshtein.DistanceForStrings: Go's `int` is 64 bits, and the model uses unbounded integers. It does not model overflow of `i*DelCost`, `j*InsCost` or the sums.
- Levenshtein.DistanceForStrings: Go keeps the two rows as separate slices aliased by `cur` and `prev`. The model keeps them as the two rows of one `array2`, which behaves the same.
- Comets.GuessComet: Go's starting value `math.MaxInt` for `shortest` is modelled as `None` (no distance yet). The two agree for every distance below `math.MaxInt`.
- Comets.GuessComet: it returns the index of the selected entry rather than the address of that entry in the loaded slice.
- Comets.OfferEntry is the body of the outer loop of `GuessComet`, and Comets.SelectEntry is that loop; both are split out as methods of their own. Their ghost parameters name the metric, and the eligibility flags and score lists, that their postconditions are stated in.
- Comets.Contains stands for Go's `strings.Contains`, a library call. It is defined directly as "the filter occurs at some position".
- Comets.IndexRuneFindsFirst: Go's `strings.IndexRune` returns a byte offset and slices bytes. The model works on characters, and the two agree on the part after the first '/'.
- Comets.Persist: when the component is already present nothing changes, but the code still marshals and rewrites the unchanged list (pkg/comet/comet.go:90-107). The model follows the code, so Persist returns `Success` with the loaded list.
- Comets.ImageName: the guard `i >= 0` at pkg/comet/comet.go:129 always holds, because `IndexRune` returns at least -1. The model therefore slices directly after the first '/'.
