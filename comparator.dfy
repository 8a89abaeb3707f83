/**
 * The comparator registered for the `intermediate` data node. Given the
 * values of that node in several scenarios, in the order supplied, it builds
 * a nested dictionary whose entry [i][j] is how much value j exceeds value i.
 */
module Comparator {

  /** Row i of the comparison, filled for the columns 0 .. width-1. */
  function Row(results: seq<int>, i: nat, width: nat): (r: map<int, int>)
    requires i < |results| && width <= |results|
    ensures forall j :: j in r <==> 0 <= j < width
  {
    map j | 0 <= j < width :: results[j] - results[i]
  }

  /** The first `rows` rows of the comparison, each filled completely. */
  function FilledRows(results: seq<int>, rows: nat): (r: map<int, map<int, int>>)
    requires rows <= |results|
    ensures forall i :: i in r <==> 0 <= i < rows
  {
    map i | 0 <= i < rows :: Row(results, i, |results|)
  }

  /** The complete comparison of the supplied values: one row per value,
      each row with one column per value. */
  function DifferenceMatrix(results: seq<int>): (r: map<int, map<int, int>>)
    ensures forall i :: i in r <==> 0 <= i < |results|
    ensures forall i, j :: i in r ==> (j in r[i] <==> 0 <= j < |results|)
  {
    FilledRows(results, |results|)
  }

  /** `compare_function`: two nested counting loops build the dictionary,
      first adding an empty row `currentResI`, then setting each of its
      columns `nextResI` to `nextRes - currentRes`. */
  method CompareFunction(results: seq<int>) returns (compareResult: map<int, map<int, int>>)
    ensures forall i :: i in compareResult <==> 0 <= i < |results|
    ensures forall i, j :: i in compareResult ==> (j in compareResult[i] <==> 0 <= j < |results|)
    ensures forall i, j :: 0 <= i < |results| && 0 <= j < |results| ==>
      compareResult[i][j] == results[j] - results[i]
    ensures compareResult == DifferenceMatrix(results)
  {
    compareResult := map[];
    var currentResI := 0;
    assert compareResult == FilledRows(results, 0);
    while currentResI < |results|
      invariant 0 <= currentResI <= |results|
      invariant compareResult == FilledRows(results, currentResI)
    {
      var currentRes := results[currentResI];
      ghost var done := compareResult;
      compareResult := compareResult[currentResI := map[]];
      var nextResI := 0;
      EmptyRow(results, done, currentResI);
      while nextResI < |results|
        invariant 0 <= nextResI <= |results|
        invariant compareResult == done[currentResI := Row(results, currentResI, nextResI)]
      {
        var nextRes := results[nextResI];
        ColumnStep(results, done, currentResI, nextResI);
        compareResult := compareResult[currentResI := compareResult[currentResI][nextResI := nextRes - currentRes]];
        nextResI := nextResI + 1;
      }
      RowsGrow(results, currentResI);
      currentResI := currentResI + 1;
    }
    MatrixEntries(results);
  }

  /** A set of keys that holds exactly 0 .. n-1 has n elements. */
  lemma {:induction false} CountIndices(keys: set<int>, n: nat)
    requires forall k :: k in keys <==> 0 <= k < n
    ensures |keys| == n
  {
    if n > 0 {
      CountIndices(keys - {n - 1}, n - 1);
    } else {
      forall k | k in keys
        ensures false
      {
      }
      assert keys == {};
    }
  }

  /** Filling one more column of a row adds exactly that column. */
  lemma RowGrows(results: seq<int>, i: nat, width: nat)
    requires i < |results| && width < |results|
    ensures Row(results, i, width + 1) == Row(results, i, width)[width := results[width] - results[i]]
  {
  }

  /** Setting the next column of the row being built extends that row by one
      column and leaves the finished rows alone. */
  lemma ColumnStep(results: seq<int>, done: map<int, map<int, int>>, i: nat, width: nat)
    requires i < |results| && width < |results|
    ensures var m := done[i := Row(results, i, width)];
      m[i := m[i][width := results[width] - results[i]]] == done[i := Row(results, i, width + 1)]
  {
    RowGrows(results, i, width);
  }

  /** A freshly added empty row is the row filled up to column 0. */
  lemma EmptyRow(results: seq<int>, done: map<int, map<int, int>>, i: nat)
    requires i < |results|
    ensures done[i := map[]] == done[i := Row(results, i, 0)]
  {
    assert map[] == Row(results, i, 0);
  }

  /** Completing one more row adds exactly that row. */
  lemma RowsGrow(results: seq<int>, rows: nat)
    requires rows < |results|
    ensures FilledRows(results, rows + 1) == FilledRows(results, rows)[rows := Row(results, rows, |results|)]
  {
  }

  /** Column j of a row filled past j holds how much value j exceeds value i. */
  lemma RowEntry(results: seq<int>, i: nat, width: nat, j: int)
    requires i < |results| && 0 <= j < width <= |results|
    ensures j in Row(results, i, width) && Row(results, i, width)[j] == results[j] - results[i]
  {
  }

  /** A row filled up to `width` holds exactly `width` entries. */
  lemma RowSize(results: seq<int>, i: nat, width: nat)
    requires i < |results| && width <= |results|
    ensures |Row(results, i, width)| == width
  {
    CountIndices(Row(results, i, width).Keys, width);
  }

  /** Row i of the matrix is the row filled up to the last column. */
  lemma MatrixRow(results: seq<int>, i: int)
    requires 0 <= i < |results|
    ensures i in DifferenceMatrix(results) && DifferenceMatrix(results)[i] == Row(results, i, |results|)
  {
  }

  /** Entry [i][j] of the matrix is how much value j exceeds value i. */
  lemma MatrixEntry(results: seq<int>, i: int, j: int)
    requires 0 <= i < |results| && 0 <= j < |results|
    ensures i in DifferenceMatrix(results) && j in DifferenceMatrix(results)[i]
    ensures DifferenceMatrix(results)[i][j] == results[j] - results[i]
  {
    MatrixRow(results, i);
    RowEntry(results, i, |results|, j);
  }

  /** Every entry of the matrix is how much its column's value exceeds its
      row's value. */
  lemma MatrixEntries(results: seq<int>)
    ensures forall i, j :: 0 <= i < |results| && 0 <= j < |results| ==>
      DifferenceMatrix(results)[i][j] == results[j] - results[i]
  {
    forall i, j | 0 <= i < |results| && 0 <= j < |results|
      ensures DifferenceMatrix(results)[i][j] == results[j] - results[i]
    {
      MatrixEntry(results, i, j);
    }
  }

  /** The result holds one row per supplied value. */
  lemma OneRowPerResult(results: seq<int>)
    ensures |DifferenceMatrix(results)| == |results|
  {
    CountIndices(DifferenceMatrix(results).Keys, |results|);
  }

  /** Row i of the result holds one column per supplied value. */
  lemma OneColumnPerResult(results: seq<int>, i: int)
    requires 0 <= i < |results|
    ensures i in DifferenceMatrix(results) && |DifferenceMatrix(results)[i]| == |results|
  {
    MatrixRow(results, i);
    RowSize(results, i, |results|);
  }

  /** With no values to compare there are no rows: the comparison is the
      empty map. */
  lemma NoResultsGiveEmptyMatrix()
    ensures DifferenceMatrix([]) == map[]
  {
  }

  /** Comparing a value with itself gives 0, swapping the two compared values
      negates the entry, and differences add up through any middle value. */
  lemma DifferenceLaws(results: seq<int>)
    ensures forall i :: i in DifferenceMatrix(results) ==> DifferenceMatrix(results)[i][i] == 0
    ensures forall i, j :: i in DifferenceMatrix(results) && j in DifferenceMatrix(results) ==>
      DifferenceMatrix(results)[i][j] == -DifferenceMatrix(results)[j][i]
    ensures forall i, j, k ::
      i in DifferenceMatrix(results) && j in DifferenceMatrix(results) && k in DifferenceMatrix(results) ==>
      DifferenceMatrix(results)[i][j] + DifferenceMatrix(results)[j][k] == DifferenceMatrix(results)[i][k]
  {
    var r := DifferenceMatrix(results);
    forall i, j | i in r && j in r
      ensures r[i][j] == results[j] - results[i]
    {
      MatrixEntry(results, i, j);
    }
  }
}
