/**
 * The two scenarios the script creates from `my_scenario`: each writes its
 * own value into `input` and runs `double` then `add`; the comparator of
 * `intermediate` receives the two scenarios' values in creation order,
 * assuming both runs have written `intermediate` by then.
 */
module Scenarios {
  import opened Tasks
  import opened Comparator

  /** Values of the `intermediate` data node, one per scenario, for the given
      scenario inputs. */
  function Intermediates(inputs: seq<int>): (r: seq<int>)
    ensures |r| == |inputs|
    ensures forall k :: 0 <= k < |inputs| ==> r[k] == Double(inputs[k])
  {
    seq(|inputs|, k requires 0 <= k < |inputs| => Double(inputs[k]))
  }

  /** Values of the `output` data node, one per scenario. */
  function Outputs(inputs: seq<int>): (r: seq<int>)
    ensures |r| == |inputs|
    ensures forall k :: 0 <= k < |inputs| ==> r[k] == Pipeline(inputs[k])
  {
    seq(|inputs|, k requires 0 <= k < |inputs| => Pipeline(inputs[k]))
  }

  /** Comparing the `intermediate` node across scenarios gives twice the
      difference of the scenarios' inputs. */
  lemma CompareIntermediates(inputs: seq<int>, i: int, j: int)
    requires 0 <= i < |inputs| && 0 <= j < |inputs|
    ensures i in DifferenceMatrix(Intermediates(inputs))
    ensures j in DifferenceMatrix(Intermediates(inputs))[i]
    ensures DifferenceMatrix(Intermediates(inputs))[i][j] == 2 * (inputs[j] - inputs[i])
  {
    MatrixEntry(Intermediates(inputs), i, j);
  }

  /** Because `add` shifts every scenario by the same amount, comparing the
      `output` node would give the same result as comparing `intermediate`. */
  lemma OutputsCompareLikeIntermediates(inputs: seq<int>)
    ensures DifferenceMatrix(Outputs(inputs)) == DifferenceMatrix(Intermediates(inputs))
  {
    var n := |inputs|;
    var outputs, intermediates := Outputs(inputs), Intermediates(inputs);
    forall i | 0 <= i < n
      ensures Row(outputs, i, n) == Row(intermediates, i, n)
    {
      forall j | 0 <= j < n
        ensures Row(outputs, i, n)[j] == Row(intermediates, i, n)[j]
      {
        RowEntry(outputs, i, n, j);
        RowEntry(intermediates, i, n, j);
      }
    }
    forall i | 0 <= i < n
      ensures DifferenceMatrix(outputs)[i] == DifferenceMatrix(intermediates)[i]
    {
      MatrixRow(outputs, i);
      MatrixRow(intermediates, i);
    }
  }

  /** Scenario 1 gets input 10 and scenario 2 input 8: their intermediate
      values are 20 and 16 and their outputs 30 and 26. */
  lemma TwoScenarioRun()
    ensures Intermediates([10, 8]) == [20, 16]
    ensures Outputs([10, 8]) == [30, 26]
  {
  }

  /** The comparator's result for the intermediate values 20 and 16 of those
      two scenarios, taken in creation order. */
  lemma TwoScenarioComparison()
    ensures DifferenceMatrix(Intermediates([10, 8])) == map[0 := map[0 := 0, 1 := -4], 1 := map[0 := 4, 1 := 0]]
  {
    var values := Intermediates([10, 8]);
    TwoScenarioRun();
    RowEntry(values, 0, 2, 0);
    RowEntry(values, 0, 2, 1);
    RowEntry(values, 1, 2, 0);
    RowEntry(values, 1, 2, 1);
    assert Row(values, 0, 2) == map[0 := 0, 1 := -4];
    assert Row(values, 1, 2) == map[0 := 4, 1 := 0];
    MatrixRow(values, 0);
    MatrixRow(values, 1);
  }
}
