# Getting-started pipeline of taipy Core, step 8

This project models the computational part of the taipy Core tutorial script
`src/step_08.py`. The script declares three data nodes: `input` (default 21),
`intermediate` and `output`. It declares two tasks: `double` reads `input`
and writes `intermediate`, and `add` reads `intermediate` and writes
`output`. The pipeline `my_pipeline` runs the two tasks in that order.
The scenario `my_scenario` registers `compare_function` as the comparator
of the `intermediate` data node.
The script creates two scenarios, writes 10 and 8 into their `input` nodes,
submits both and prints the comparison of their `intermediate` values.

The model has three modules:

- `Tasks` (`tasks.dfy`): the task computations `Double` and `Add` and their
  composition `Pipeline`, as pure functions on unbounded integers.
- `Comparator` (`comparator.dfy`): `compare_function` as the method
  `CompareFunction`. Its two nested counting loops build the nested map row
  by row and column by column, as the source does. Each step rebuilds the
  outer map with the extended row. The loop invariants tie the partial map
  to the first rows of the specification function `DifferenceMatrix`, and
  the lemmas state what the comparison means: its keys, its entries, its
  size, the zero diagonal, antisymmetry and the chaining of differences.
- `Scenarios` (`scenarios.dfy`): the values the `intermediate` and `output`
  data nodes take in a list of scenarios, what comparing them gives for any
  inputs, and the concrete run with inputs 10 and 8.

## Model

| member | source | states |
|---|---|---|
| `Tasks.Double` | src/step_08.py:11-12 | The intermediate value is even and halving it gives back the input. |
| `Tasks.Add` | src/step_08.py:14-17 | The output exceeds its input by exactly 10. The print and the sleep do not affect the result. |
| `Tasks.Pipeline` | src/step_08.py:27-38 | Running `double` and then `add` gives `2*x + 10`. Subtracting 10 and halving recovers the scenario input. |
| `Comparator.DifferenceMatrix` | src/step_08.py:41-52 | The outer keys are exactly the indices 0..n-1 of the compared values. Every row's keys are exactly 0..n-1. |
| `Comparator.CompareFunction` | src/step_08.py:41-52 | The nested loops produce outer keys 0..n-1 and row keys 0..n-1. Each entry `[i][j]` equals `results[j] - results[i]`. The whole result equals `DifferenceMatrix(results)`. |
| `Comparator.MatrixEntry` | src/step_08.py:49 | Every index pair `i, j` in range is present, and its entry is `results[j] - results[i]`. |
| `Comparator.OneRowPerResult` | src/step_08.py:43-51 | The result has exactly one row per compared value. |
| `Comparator.OneColumnPerResult` | src/step_08.py:46-50 | Every row has exactly one column per compared value. |
| `Comparator.NoResultsGiveEmptyMatrix` | src/step_08.py:42-52 | With no values to compare, the result is the empty map. |
| `Comparator.DifferenceLaws` | src/step_08.py:49 | The diagonal entries are 0. Swapping `i` and `j` negates an entry. `[i][j] + [j][k] == [i][k]`. |
| `Scenarios.Intermediates` | src/step_08.py:27-30 | One `intermediate` value per scenario, and each is `double` of that scenario's input. |
| `Scenarios.Outputs` | src/step_08.py:27-38 | One `output` value per scenario, and each is the pipeline applied to that scenario's input. |
| `Scenarios.CompareIntermediates` | src/step_08.py:55-57 | Comparing the `intermediate` node across scenarios gives, at `[i][j]`, twice the difference between the inputs of scenarios j and i. |
| `Scenarios.OutputsCompareLikeIntermediates` | src/step_08.py:14-17 | `add` shifts every scenario by the same amount, so comparing the `output` node would give the same map as comparing `intermediate`. |
| `Scenarios.TwoScenarioRun` | src/step_08.py:68-75 | With inputs 10 and 8, the intermediate values are 20 and 16 and the outputs are 30 and 26. |
| `Scenarios.TwoScenarioComparison` | src/step_08.py:68-77 | The comparator's result for the intermediate values 20 and 16, in scenario creation order, is `{0: {0: 0, 1: -4}, 1: {0: 4, 1: 0}}`. |

## Left out

- `Config.configure_job_executions`, `configure_data_node`, `configure_task`,
  `configure_pipeline` and `configure_scenario` are calls into the taipy
  library (src/step_08.py:8, 19, 22-38, 55-57). Only what they connect is
  modelled: which task feeds which, and which node has the comparator.
  The taipy library is not part of this model.
- `Config.export` writes a TOML file through the library's serialiser
  (src/step_08.py:63). It is file I/O and is not modelled.
- `tp.Core().run()` and `tp.Rest().run()` start the application and the
  REST server (src/step_08.py:66, 79). They are not modelled.
- `tp.create_scenario`, `submit` and `tp.compare_scenarios` are library
  internals (src/step_08.py:68-77). Their effect appears only through the
  `Scenarios` functions and the concrete lemmas: each scenario holds its own
  values, tasks run in pipeline order, and the comparator gets the scenarios'
  `intermediate` values in the order given.
- The default value 21 of the `input` node is not modelled (src/step_08.py:22).
  Both scenarios in the script overwrite it before submitting.
- The standalone executor with two workers is not modelled
  (src/step_08.py:8, 19). Jobs and their timing are not modelled; each
  scenario's values are those of its tasks run in pipeline order.
- The `Scenarios` lemmas assume that both `double` jobs have written
  `intermediate` before the comparison reads it. The script compares right
  after the two `submit()` calls (src/step_08.py:74-77), and nothing shown
  guarantees the jobs have finished by then. What `tp.compare_scenarios`
  returns and prints is decided by the library. The model covers only the
  comparator's result for the values it is given.
- `print` and `time.sleep` in `add` and in `compare_function` have no effect
  on the returned values (src/step_08.py:15-16, 48). They are not modelled.
- `Comparator.CompareFunction`: a Dafny map has no order, so the model does
  not capture that Python dictionaries keep keys in insertion order (rows
  0..n-1, and columns 0..n-1 within each row). That order only shows when the
  result is printed.
- Task inputs are modelled as integers. Python's `*` and `+` also accept
  floats, strings and lists, but the script passes only integers.
- In Python, `compare_result[i] = {}` followed by `compare_result[i][j] = ...`
  changes a dictionary object that the outer dictionary holds by reference.
  The model rebuilds the outer map with the updated row instead. The
  resulting values are the same, because no other reference to the row
  exists.
- `src/step_01.py` only configures the library and repeats `double`, so it
  is not part of this model.
