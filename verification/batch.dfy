/** Rows, chunks and the upstream batch producer the selection operator pulls from. */
module Batch {
  import opened Wrappers

  /** A row of the batch. Its cells are opaque to the selection operator: only the
      conditions look inside a row. */
  datatype Row = Row(cells: seq<int>)

  /** The coprocessor error type; both upstream failures and construction failures
      are carried as `Other`. */
  datatype Error = Other(msg: string)

  /** One `BatchExecuteResult`: the rows an upstream call produced and the error
      that may come with them. A chunk with zero rows signals that the upstream
      is drained. */
  datatype Chunk = Chunk(rows: seq<Row>, error: Option<Error>)

  /** How the upstream answers one `next_batch(n)` call, as a function of the
      requested row count `n`. */
  type Response = nat -> Chunk

  /** The number of rows the selection operator asks its upstream for per fill cycle. */
  const FetchSize: nat := 1024

  /** What an upstream answers once its list of responses is used up. */
  const Exhausted: Chunk := Chunk([], None)

  /** The chunk the next upstream call yields, given the remaining responses. */
  function Fetch(src: seq<Response>): Chunk
  {
    if src == [] then Exhausted else src[0](FetchSize)
  }

  /** The responses still to come after one upstream call. */
  function Advance(src: seq<Response>): (r: seq<Response>)
    ensures |r| == if src == [] then 0 else |src| - 1
    ensures src != [] ==> src == [src[0]] + r
  {
    if src == [] then [] else src[1..]
  }
}
