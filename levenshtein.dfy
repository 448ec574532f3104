// Weighted Levenshtein edit distance: the recurrence over the full grid as a
// recursive function, and the two-row dynamic program that computes it.

module Levenshtein {

  /** An edit step. Go represents it as a plain `int`. */
  newtype EditOperation = int

  const Ins: EditOperation := 0
  const Del: EditOperation := 1
  const Sub: EditOperation := 2
  const Match: EditOperation := 3

  /** The printable name of an edit step; every value that is not one of the
      three named steps prints as a deletion. */
  function OperationName(op: EditOperation): (name: string)
    ensures op == Match <==> name == "match"
    ensures op == Ins <==> name == "ins"
    ensures op == Sub <==> name == "sub"
    ensures op != Match && op != Ins && op != Sub <==> name == "del"
  {
    if op == Match then "match"
    else if op == Ins then "ins"
    else if op == Sub then "sub"
    else "del"
  }

  /** The default match predicate: two characters match iff they are the same. */
  function IdenticalRunes(a: char, b: char): bool {
    a == b
  }

  /** The default match predicate is reflexive and symmetric, which is what
      DistanceToSelf and DistanceSymmetric ask of a match predicate. */
  lemma IdenticalRunesIsEquivalence()
    ensures forall c :: IdenticalRunes(c, c)
    ensures forall a, b :: IdenticalRunes(a, b) == IdenticalRunes(b, a)
  {
  }

  /** Costs of the three edit steps and the predicate that decides when two
      characters need no substitution. */
  datatype Options = Options(insCost: int, delCost: int, subCost: int, matches: (char, char) -> bool)

  /** Insertion and deletion cost 1, substitution cost 2, exact matching. */
  const DefaultOptions: Options := Options(1, 1, 2, IdenticalRunes)

  function Min(a: int, b: int): int {
    if a <= b then a else b
  }

  /** Cost of the diagonal step: nothing when the characters match. */
  function DiagonalCost(o: Options, a: char, b: char): int {
    if o.matches(a, b) then 0 else o.subCost
  }

  /** Cell (i, j) of the edit grid: the cheapest way to turn s[..i] into t[..j]. */
  function Cell(o: Options, s: seq<char>, t: seq<char>, i: nat, j: nat): int
    requires i <= |s| && j <= |t|
    decreases i + j
  {
    if i == 0 then j * o.insCost
    else if j == 0 then i * o.delCost
    else Min(Cell(o, s, t, i - 1, j) + o.delCost,
             Min(Cell(o, s, t, i - 1, j - 1) + DiagonalCost(o, s[i - 1], t[j - 1]),
                 Cell(o, s, t, i, j - 1) + o.insCost))
  }

  /** The edit distance between source and target: the bottom-right cell. */
  function Distance(o: Options, source: seq<char>, target: seq<char>): int {
    Cell(o, source, target, |source|, |target|)
  }

  /** Row r of the two-row buffer holds cells (i, 0) to (i, n - 1) of the grid. */
  ghost predicate RowHolds(matrix: array2<int>, r: nat, o: Options, s: seq<char>, t: seq<char>, i: nat, n: nat)
    reads matrix
    requires r < matrix.Length0 && n <= matrix.Length1 && i <= |s| && n <= |t| + 1
  {
    forall k :: 0 <= k < n ==> matrix[r, k] == Cell(o, s, t, i, k)
  }

  /** The two-row dynamic program: only rows i % 2 and (i - 1) % 2 of the
      grid are kept, and row i overwrites row i - 2. */
  method DistanceForStrings(source: seq<char>, target: seq<char>, op: Options) returns (d: int)
    ensures d == Distance(op, source, target)
  {
    var height := |source| + 1;
    var width := |target| + 1;
    var matrix := new int[2, width];

    for i := 0 to 2
      invariant forall k :: 0 <= k < i ==> matrix[k, 0] == k * op.delCost
    {
      matrix[i, 0] := i * op.delCost;
    }
    for j := 1 to width
      invariant RowHolds(matrix, 0, op, source, target, 0, j)
    {
      matrix[0, j] := j * op.insCost;
    }

    for i := 1 to height
      invariant RowHolds(matrix, (i - 1) % 2, op, source, target, i - 1, width)
    {
      var cur := i % 2;
      var prev := (i - 1) % 2;
      matrix[cur, 0] := i * op.delCost;
      for j := 1 to width
        invariant RowHolds(matrix, cur, op, source, target, i, j)
        invariant RowHolds(matrix, prev, op, source, target, i - 1, width)
      {
        var delCost := matrix[prev, j] + op.delCost;
        var matchSubCost := matrix[prev, j - 1];
        if !op.matches(source[i - 1], target[j - 1]) {
          matchSubCost := matchSubCost + op.subCost;
        }
        var insCost := matrix[cur, j - 1] + op.insCost;
        matrix[cur, j] := Min(delCost, Min(matchSubCost, insCost));
      }
    }
    d := matrix[(height - 1) % 2, width - 1];
  }

  /** Costs no edit step can lower the total with. */
  predicate NonNegativeCosts(o: Options) {
    o.insCost >= 0 && o.delCost >= 0 && o.subCost >= 0
  }

  lemma {:induction false} CellNonNegative(o: Options, s: seq<char>, t: seq<char>, i: nat, j: nat)
    requires NonNegativeCosts(o)
    requires i <= |s| && j <= |t|
    ensures Cell(o, s, t, i, j) >= 0
    decreases i + j
  {
    if i > 0 && j > 0 {
      CellNonNegative(o, s, t, i - 1, j);
      CellNonNegative(o, s, t, i - 1, j - 1);
      CellNonNegative(o, s, t, i, j - 1);
    }
  }

  /** With non-negative costs the distance is never negative. */
  lemma DistanceNonNegative(o: Options, source: seq<char>, target: seq<char>)
    requires NonNegativeCosts(o)
    ensures Distance(o, source, target) >= 0
  {
    CellNonNegative(o, source, target, |source|, |target|);
  }

  lemma {:induction false} CellDiagonalZero(o: Options, s: seq<char>, i: nat)
    requires NonNegativeCosts(o)
    requires forall c :: o.matches(c, c)
    requires i <= |s|
    ensures Cell(o, s, s, i, i) == 0
  {
    if i > 0 {
      CellDiagonalZero(o, s, i - 1);
      CellNonNegative(o, s, s, i, i);
      assert DiagonalCost(o, s[i - 1], s[i - 1]) == 0;
    }
  }

  /** A string is at distance zero from itself when the match predicate is
      reflexive and no cost is negative. */
  lemma DistanceToSelf(o: Options, s: seq<char>)
    requires NonNegativeCosts(o)
    requires forall c :: o.matches(c, c)
    ensures Distance(o, s, s) == 0
  {
    CellDiagonalZero(o, s, |s|);
  }

  /** The trivial distances from and to the empty string. */
  lemma DistanceFromEmpty(o: Options, source: seq<char>, target: seq<char>)
    ensures Distance(o, [], target) == |target| * o.insCost
    ensures Distance(o, source, []) == |source| * o.delCost
  {
  }

  lemma {:induction false} CellSymmetric(o: Options, s: seq<char>, t: seq<char>, i: nat, j: nat)
    requires o.insCost == o.delCost
    requires forall a, b :: o.matches(a, b) == o.matches(b, a)
    requires i <= |s| && j <= |t|
    ensures Cell(o, s, t, i, j) == Cell(o, t, s, j, i)
    decreases i + j
  {
    if i > 0 && j > 0 {
      CellSymmetric(o, s, t, i - 1, j);
      CellSymmetric(o, s, t, i - 1, j - 1);
      CellSymmetric(o, s, t, i, j - 1);
      assert DiagonalCost(o, s[i - 1], t[j - 1]) == DiagonalCost(o, t[j - 1], s[i - 1]);
    }
  }

  /** Equal insertion and deletion costs and a symmetric match predicate make
      the distance symmetric. */
  lemma DistanceSymmetric(o: Options, source: seq<char>, target: seq<char>)
    requires o.insCost == o.delCost
    requires forall a, b :: o.matches(a, b) == o.matches(b, a)
    ensures Distance(o, source, target) == Distance(o, target, source)
  {
    CellSymmetric(o, source, target, |source|, |target|);
  }

  /** Unequal insertion and deletion costs break symmetry. */
  lemma AsymmetricCostsBreakSymmetry()
    ensures Distance(Options(1, 2, 2, IdenticalRunes), "", "a") == 1
    ensures Distance(Options(1, 2, 2, IdenticalRunes), "a", "") == 2
  {
  }

  lemma {:induction false} CellUpperBound(o: Options, s: seq<char>, t: seq<char>, i: nat, j: nat)
    requires i <= |s| && j <= |t|
    ensures Cell(o, s, t, i, j) <= i * o.delCost + j * o.insCost
    decreases i
  {
    if i > 0 && j > 0 {
      CellUpperBound(o, s, t, i - 1, j);
      assert (i - 1) * o.delCost + o.delCost == i * o.delCost;
    }
  }

  /** Deleting all of the source and inserting all of the target is always
      possible, so the distance never exceeds that cost. */
  lemma DistanceUpperBound(o: Options, source: seq<char>, target: seq<char>)
    ensures Distance(o, source, target) <= |source| * o.delCost + |target| * o.insCost
  {
    CellUpperBound(o, source, target, |source|, |target|);
  }

  /** The grid with insertions and deletions only: a diagonal step is allowed,
      for free, only where the characters match. */
  function IndelCell(o: Options, s: seq<char>, t: seq<char>, i: nat, j: nat): int
    requires i <= |s| && j <= |t|
    decreases i + j
  {
    if i == 0 then j * o.insCost
    else if j == 0 then i * o.delCost
    else if o.matches(s[i - 1], t[j - 1]) then
      Min(IndelCell(o, s, t, i - 1, j) + o.delCost,
          Min(IndelCell(o, s, t, i - 1, j - 1), IndelCell(o, s, t, i, j - 1) + o.insCost))
    else
      Min(IndelCell(o, s, t, i - 1, j) + o.delCost, IndelCell(o, s, t, i, j - 1) + o.insCost)
  }

  /** Moving one row down costs at most one deletion. */
  lemma CellDeleteStep(o: Options, s: seq<char>, t: seq<char>, i: nat, j: nat)
    requires 0 < i <= |s| && j <= |t|
    ensures Cell(o, s, t, i, j) <= Cell(o, s, t, i - 1, j) + o.delCost
  {
  }

  lemma {:induction false} CellWithoutSubstitution(o: Options, s: seq<char>, t: seq<char>, i: nat, j: nat)
    requires o.subCost >= o.insCost + o.delCost
    requires i <= |s| && j <= |t|
    ensures Cell(o, s, t, i, j) == IndelCell(o, s, t, i, j)
    decreases i + j
  {
    if i > 0 && j > 0 {
      CellWithoutSubstitution(o, s, t, i - 1, j);
      CellWithoutSubstitution(o, s, t, i - 1, j - 1);
      CellWithoutSubstitution(o, s, t, i, j - 1);
      CellDeleteStep(o, s, t, i, j - 1);
    }
  }

  /** When a substitution costs at least a deletion plus an insertion, it never
      lowers the distance: the result is the insert/delete-only distance. */
  lemma SubstitutionNeverCheaper(o: Options, source: seq<char>, target: seq<char>)
    requires o.subCost >= o.insCost + o.delCost
    ensures Distance(o, source, target) == IndelCell(o, source, target, |source|, |target|)
  {
    CellWithoutSubstitution(o, source, target, |source|, |target|);
  }

  /** What the default options guarantee: non-negative, zero on equal strings,
      symmetric, bounded by the total length, and equal to the
      insert/delete-only distance. */
  lemma DefaultDistance(source: seq<char>, target: seq<char>)
    ensures 0 <= Distance(DefaultOptions, source, target) <= |source| + |target|
    ensures Distance(DefaultOptions, source, source) == 0
    ensures Distance(DefaultOptions, source, target) == Distance(DefaultOptions, target, source)
    ensures Distance(DefaultOptions, source, target)
         == IndelCell(DefaultOptions, source, target, |source|, |target|)
  {
    DistanceNonNegative(DefaultOptions, source, target);
    DistanceUpperBound(DefaultOptions, source, target);
    DistanceToSelf(DefaultOptions, source);
    DistanceSymmetric(DefaultOptions, source, target);
    SubstitutionNeverCheaper(DefaultOptions, source, target);
  }
}
