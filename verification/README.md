# Batch selection executor

A Dafny model of TiKV's coprocessor batch selection operator, `BatchSelectionExecutor`.
It is the pull-based filter of the batch (vectorized) executor pipeline. It sits above an
upstream batch producer and holds a list of conditions. Rows on which every condition
holds go out in upstream order, sliced into whatever row counts the caller asks for.

The model is a functional state machine:

- `Batch`: rows (opaque cells), the coprocessor `Error`, the `Chunk` one upstream call
  returns (rows plus an optional error), and the upstream itself. The upstream is a
  finite list of responses. Each response is a function from the requested row count to
  a chunk. The executor always requests `FetchSize` = 1024 rows. Once the list is used
  up, the upstream answers an empty chunk with no error.
- `Filter`: `filter_rows` as a fold over the conditions. It starts from an all-true
  retain map, evaluates each condition over the whole chunk and AND-merges the result
  in. `append_by_index` keeps the retained rows. `Passing` is an independent reference
  definition of conjunctive filtering, and the retain-map pipeline is proved equal to it.
- `Columns`: the pending buffer's column layout built by the constructor. A column is
  decoded iff a condition refers to it or it is the primary-key handle; every other
  column stays raw. The layout fails on the first column that needs decoding and has no
  evaluation type.
- `SelectionExecutor`: the operator state (`pending`, `pendingError`, `hasThrownError`,
  `hasDrained`, the remaining upstream), `New`, `Fill` (`fill_buffer`), `Emit` (the tail
  of `next_batch`) and the method `Next` (`next_batch`) with its fill loop. `Consistent`
  is the reachable-state invariant. It says that the rows handed out so far, followed by
  the pending buffer, equal the filtered rows of the consumed upstream chunks in order.
  It also says that the pending error is the earliest upstream error until it is thrown.

Conditions are total functions `Row -> bool`, standing for the compiled expressions.
The set of referred columns and the `EvalType` conversion are inputs to the model.

Condition evaluation cannot fail in the model. In the code, `filter_rows` ignores the
value `eval_as_bools` returns (lines 120-125) and always returns `Ok(())` (line 131), so
the only runtime error is the upstream's. `MergeError` still has the filter-error slot
that `fill_buffer` merges (lines 162-166), and `FilterRows` proves that this slot is
always `None`.

## Model

| member | source | states |
|---|---|---|
| `Filter.FilterRows` | src/coprocessor/dag/batch_executor/selection_executor.rs:99-132 | after all conditions have been applied in order, a row is retained iff it was retained before and every condition holds on it; the result never carries an error |
| `Filter.AllHoldConcat` | src/coprocessor/dag/batch_executor/selection_executor.rs:119-129 | a row passes a joined condition list iff it passes each part |
| `Filter.FilterRowsOrderFree` | src/coprocessor/dag/batch_executor/selection_executor.rs:119-129 | the order in which condition results are AND-merged into the retain map does not matter: one condition list joined to another, either way round, yields the same retain map |
| `Filter.AppendByIndex` | src/coprocessor/dag/batch_executor/selection_executor.rs:160-161 | appending by a retain map keeps only rows of the chunk, never more rows than the chunk has |
| `Filter.AppendByIndexMembership` | src/coprocessor/dag/batch_executor/selection_executor.rs:160-161 | a row is appended iff some position of the chunk holds it and its retain-map entry is true |
| `Filter.AppendByIndexConcat` | src/coprocessor/dag/batch_executor/selection_executor.rs:160-161 | appending by index over a joined chunk and a joined retain map equals appending by each part and joining the results |
| `Filter.AppendByIndexAllTrue` | src/coprocessor/dag/batch_executor/selection_executor.rs:156-161 | an all-true retain map keeps every row, unchanged and in order |
| `Filter.PassingMembership` | src/coprocessor/dag/batch_executor/selection_executor.rs:155-161 | a row is in the filtered output iff it is a row of the chunk and every condition holds on it |
| `Filter.AppendByConjunction` | src/coprocessor/dag/batch_executor/selection_executor.rs:156-161 | appending by a retain map that marks exactly the rows passing the conjunction gives the conjunctively filtered rows, in order |
| `Filter.RetainedIsPassing` | src/coprocessor/dag/batch_executor/selection_executor.rs:155-161 | the all-true retain map, the per-condition AND-merge and the append by index together equal the reference filter |
| `Filter.PassingConcat` | src/coprocessor/dag/batch_executor/selection_executor.rs:160-161 | filtering chunk by chunk and joining the results equals filtering the joined rows, so chunk boundaries do not affect the output |
| `Filter.PassingNoConditions` | src/coprocessor/dag/batch_executor/selection_executor.rs:119-129 | with an empty condition list every row passes, unchanged and in order |
| `Filter.NoConditionsRetainAll` | src/coprocessor/dag/batch_executor/selection_executor.rs:156-161 | with no conditions the all-true retain map keeps every fetched row |
| `Columns.BuildFrom` | src/coprocessor/dag/batch_executor/selection_executor.rs:64-75 | on success each column from index i on gets its layout; on failure some column needs decoding and has no evaluation type, every column before it is resolvable, and the error carries that column's conversion message |
| `Columns.BuildColumns` | src/coprocessor/dag/batch_executor/selection_executor.rs:59-77 | column i is decoded, with its resolved evaluation type, iff it is referred to or is the primary-key handle, and raw otherwise; construction fails iff such a column's type has no evaluation type, reporting the first one |
| `SelectionExecutor.MergeError` | src/coprocessor/dag/batch_executor/selection_executor.rs:162-166 | first failure wins: a pending error is kept; otherwise the filter's error is taken, and failing that the upstream's |
| `SelectionExecutor.FirstErrorIsEarliest` | src/coprocessor/dag/batch_executor/selection_executor.rs:162-168 | merging cycle by cycle leaves pending exactly the error of the earliest failing chunk, and no error iff no consumed chunk failed |
| `SelectionExecutor.DeliveredIsFilteredUpstream` | src/coprocessor/dag/batch_executor/selection_executor.rs:141-161 | the rows all fill cycles append are the upstream rows, in upstream order, on which every condition holds |
| `SelectionExecutor.NoConditionsDeliverUpstream` | src/coprocessor/dag/batch_executor/selection_executor.rs:156-161 | with no conditions the operator passes the upstream rows through unmodified |
| `SelectionExecutor.ConsumeOne` | src/coprocessor/dag/batch_executor/selection_executor.rs:141-168 | one more consumed chunk appends its passing rows and merges its error behind the earlier ones; the consumed part ends with an empty chunk iff this chunk had no rows; if the previous last chunk had rows and no error, no consumed chunk was fetched after one that drained the operator |
| `SelectionExecutor.New` | src/coprocessor/dag/batch_executor/selection_executor.rs:47-97 | a failing referred-column analysis is returned as is; otherwise construction fails iff a column that needs decoding is unresolvable; on success the buffer is empty, no error is pending, the operator is neither drained nor errored, and each column is decoded iff it is referred to or the primary-key handle |
| `SelectionExecutor.NewIsConsistent` | src/coprocessor/dag/batch_executor/selection_executor.rs:85-96 | a freshly built operator is in a reachable state with nothing handed out |
| `SelectionExecutor.Fill` | src/coprocessor/dag/batch_executor/selection_executor.rs:137-169 | fill needs a non-drained operator; the buffer becomes the old buffer followed by exactly the fetched rows every condition holds on, also when the chunk came with an error; an existing error is never replaced; afterwards the operator is drained iff an error is pending or the chunk had zero rows |
| `SelectionExecutor.FillReached` | src/coprocessor/dag/batch_executor/selection_executor.rs:137-169 | a fill cycle from a reachable state reaches the state with the fetched chunk consumed: its passing rows are buffered, the pending error is still the earliest upstream error, no chunk is fetched past a drain, and the operator is drained when a consumed chunk failed or the last one came back empty, and otherwise only when the upstream has run out |
| `SelectionExecutor.FillPreservesConsistent` | src/coprocessor/dag/batch_executor/selection_executor.rs:137-169 | a fill cycle keeps the operator reachable: the rows handed out followed by the buffer still equal the filtered consumed chunks; the pending error is the earliest upstream error; the operator is drained only for one of the reasons line 168 names |
| `SelectionExecutor.FillStep` | src/coprocessor/dag/batch_executor/selection_executor.rs:178-180 | repeated fill cycles consume the upstream in order, append the filtered rows of every consumed chunk, and merge their errors behind any error pending at the start; every consumed chunk but the last had rows and no error; a drained operator fetches nothing; the operator is drained only because it was, an error is pending, the last chunk was empty or the upstream ran out |
| `SelectionExecutor.FillStepInTime` | src/coprocessor/dag/batch_executor/selection_executor.rs:178-180 | a fill cycle is only run while fewer than the expected rows are buffered |
| `SelectionExecutor.FillUntil` | src/coprocessor/dag/batch_executor/selection_executor.rs:177-180 | the loop ends drained or with at least expectRows rows buffered; every chunk it consumed was fetched while fewer than expectRows rows were buffered; it keeps every fact of the fill steps and keeps the operator reachable |
| `SelectionExecutor.Emit` | src/coprocessor/dag/batch_executor/selection_executor.rs:184-196 | hands out the first min(expectRows, buffered) rows and keeps the rest; an error is attached only to a short result and is then no longer pending; the error is either returned or still pending, never lost; the thrown flag is set iff an error is returned |
| `SelectionExecutor.EmitReached` | src/coprocessor/dag/batch_executor/selection_executor.rs:182-196 | emitting from a reachable state whose buffer is short only when drained keeps the operator reachable, with the handed-out rows extended by the batch; a returned error is the earliest upstream error |
| `SelectionExecutor.EmitAfterFill` | src/coprocessor/dag/batch_executor/selection_executor.rs:177-196 | once filling has stopped, the batch and the new buffer continue the old buffer with the newly filtered rows; the batch has min(expectRows, buffered) rows; it is short only when drained, and then only because the operator was drained, an error came up, a chunk came back empty or the upstream ran out; no error is lost |
| `SelectionExecutor.Next` | src/coprocessor/dag/batch_executor/selection_executor.rs:174-197 | must not be called after an error was returned; consumes the upstream in order; a drained operator fetches nothing, and no chunk is fetched after one that failed or came back empty; stops fetching once expectRows rows are buffered; returns exactly min(expectRows, buffered) rows, the prefix of the old buffer followed by the newly filtered rows, and leaves the rest pending; drained stays drained, and the operator becomes drained only on an error, an empty chunk or an exhausted upstream; a short result only when drained; an error only with a short result, surfaced once and never lost; across calls the rows returned followed by the buffer equal the filtered upstream rows in order |

## Left out

- Compiling and evaluating the condition expressions (`RpnExpressionNodeVec::build_from_def`, `eval_as_bools`, `EvalConfig`, the timezone) are not modelled. Each condition is a total boolean function on rows. Expression semantics live outside this file.
- `ExprColumnRefVisitor` is not modelled. Its result is an input to `New`, a success or an error, because its analysis of expression trees is external. The referred indices are required to be within the schema, as the indexing at line 62 assumes.
- `EvalType::try_from` is a parameter: a partial function from field types to evaluation types with an error message.
- Lazy column decoding (`ensure_column_decoded`, lines 143-151) and the internals of `LazyBatchColumn` are not modelled. The source has no failure path for decoding, and decoding does not change which rows are retained. Only the decoded/raw flag of each buffer column is modelled.
- Buffer capacities (2048, lines 70 and 73) are performance details and are left out.
- A failing condition evaluation is not modelled. Conditions are total. In the code, the value `eval_as_bools` returns is ignored (lines 120-125), so an evaluation error is lost. The head retain map is allocated once per call, all `false` (line 117), and reused across conditions. A condition whose evaluation fails part-way leaves in it the values written so far or a previous condition's values, and the chunk is then filtered by those stale values.
- The upstream executor is not modelled. It is a fixed list of responses, each a function of the requested row count. How a real upstream picks its chunk sizes, and any I/O beneath it, is outside this model.
- The assertions at lines 116, 138 and 175 are preconditions (`FilterRows`, `Fill` and `Next`), not modelled panics. A violated one is a caller bug.
