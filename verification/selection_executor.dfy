/** `BatchSelectionExecutor`: a pull-based filter operator over an upstream batch
    producer. Each fill cycle fetches one chunk, filters it through the conjunction
    of the conditions and appends the surviving rows to a pending buffer; each
    `next_batch(n)` call fills until `n` rows are buffered or the operator is
    drained, then hands out the first `min(n, buffered)` rows. At most one error is
    kept pending (the first one wins) and it is surfaced, exactly once, with the
    first result that comes out short. */
module SelectionExecutor {
  import opened Wrappers
  import opened Batch
  import opened Filter
  import opened Columns

  /** The operator's state. `src` holds the upstream's responses still to come. */
  datatype Executor = Executor(
    conditions: seq<Condition>,
    referredColumns: seq<nat>,
    columns: seq<LazyColumn>,
    src: seq<Response>,
    pending: seq<Row>,
    pendingError: Option<Error>,
    hasThrownError: bool,
    hasDrained: bool)
  {
    /** The same operator with the same conditions and column layout. */
    ghost predicate SameSetup(other: Executor) {
      && conditions == other.conditions
      && referredColumns == other.referredColumns
      && columns == other.columns
    }
  }

  function Min(a: nat, b: nat): nat {
    if a <= b then a else b
  }

  /* ---------------- Errors: first failure wins ---------------- */

  /** How one fill cycle updates the pending error: an error already pending is
      kept; otherwise the filter's error is taken, and failing that the upstream's. */
  function MergeError(pending: Option<Error>, filterErr: Option<Error>, upstreamErr: Option<Error>)
    : (r: Option<Error>)
    ensures pending.Some? ==> r == pending
    ensures pending.None? && filterErr.Some? ==> r == filterErr
    ensures pending.None? && filterErr.None? ==> r == upstreamErr
  {
    pending.Or(filterErr).Or(upstreamErr)
  }

  /** The pending error after the given upstream responses have been consumed, one
      fill cycle each, starting from no error (the filter never fails). */
  function FirstError(consumed: seq<Response>): Option<Error> {
    if consumed == [] then None
    else MergeError(FirstError(consumed[..|consumed| - 1]), None, consumed[|consumed| - 1](FetchSize).error)
  }

  /** Chunk `i` of the consumed responses is the first to fail, with error `e`. */
  predicate FailsFirstAt(consumed: seq<Response>, i: nat, e: Error) {
    && i < |consumed|
    && consumed[i](FetchSize).error == Some(e)
    && forall j :: 0 <= j < i ==> consumed[j](FetchSize).error.None?
  }

  /** Merging error by error keeps the error of the earliest failing chunk, and
      there is a pending error iff some consumed chunk failed. */
  lemma {:induction false} FirstErrorIsEarliest(consumed: seq<Response>, e: Error)
    ensures FirstError(consumed) == Some(e) <==> exists i: nat :: FailsFirstAt(consumed, i, e)
    ensures FirstError(consumed).None? <==>
      forall i :: 0 <= i < |consumed| ==> consumed[i](FetchSize).error.None?
    decreases |consumed|
  {
    if consumed != [] {
      var init := consumed[..|consumed| - 1];
      var last := |consumed| - 1;
      FirstErrorIsEarliest(init, e);
      assert forall i :: 0 <= i < |init| ==> init[i] == consumed[i];
      if FirstError(consumed) == Some(e) {
        if FirstError(init).Some? {
          var i: nat :| FailsFirstAt(init, i, e);
          assert FailsFirstAt(consumed, i, e);
        } else {
          assert FailsFirstAt(consumed, last, e);
        }
      }
      if exists i: nat :: FailsFirstAt(consumed, i, e) {
        var i: nat :| FailsFirstAt(consumed, i, e);
        if i < last {
          assert FailsFirstAt(init, i, e);
        } else {
          assert forall j :: 0 <= j < |init| ==> init[j](FetchSize).error.None?;
        }
      }
      if FirstError(consumed).None? {
        assert consumed[last](FetchSize).error.None?;
      }
    }
  }

  /* ---------------- Rows delivered by the upstream ---------------- */

  /** The rows the given upstream responses contribute to the pending buffer, one
      fill cycle each, in upstream order. */
  function Delivered(conds: seq<Condition>, consumed: seq<Response>): seq<Row> {
    if consumed == [] then []
    else Delivered(conds, consumed[..|consumed| - 1]) + Passing(conds, consumed[|consumed| - 1](FetchSize).rows)
  }

  /** All rows the given upstream responses carried, in upstream order. */
  function UpstreamRows(consumed: seq<Response>): seq<Row> {
    if consumed == [] then []
    else UpstreamRows(consumed[..|consumed| - 1]) + consumed[|consumed| - 1](FetchSize).rows
  }

  /** Chunk by chunk filtering delivers exactly the upstream rows on which every
      condition holds, in upstream order: chunk boundaries make no difference. */
  lemma {:induction false} DeliveredIsFilteredUpstream(conds: seq<Condition>, consumed: seq<Response>)
    ensures Delivered(conds, consumed) == Passing(conds, UpstreamRows(consumed))
    decreases |consumed|
  {
    if consumed != [] {
      var init := consumed[..|consumed| - 1];
      DeliveredIsFilteredUpstream(conds, init);
      PassingConcat(conds, UpstreamRows(init), consumed[|consumed| - 1](FetchSize).rows);
    }
  }

  /** With no conditions the operator delivers the upstream rows unmodified. */
  lemma NoConditionsDeliverUpstream(consumed: seq<Response>)
    ensures Delivered([], consumed) == UpstreamRows(consumed)
  {
    DeliveredIsFilteredUpstream([], consumed);
    PassingNoConditions(UpstreamRows(consumed));
  }


  /* ---------------- Consuming the upstream ---------------- */

  /** The last consumed chunk had no rows: the upstream signalled it is drained. */
  predicate LastEmpty(consumed: seq<Response>) {
    consumed != [] && |consumed[|consumed| - 1](FetchSize).rows| == 0
  }

  /** Every consumed chunk but the last left the operator active: it had rows and
      no error, so no chunk was fetched after one that drained the operator. */
  predicate NoneSkipped(consumed: seq<Response>) {
    forall i :: 0 <= i < |consumed| - 1 ==>
      consumed[i](FetchSize).error.None? && |consumed[i](FetchSize).rows| > 0
  }

  /** The consumed prefix after one more upstream call on the remaining `src`: an
      exhausted upstream is not consumed any further. */
  function TakenAfter(consumed: seq<Response>, src: seq<Response>): seq<Response> {
    if src == [] then consumed else consumed + [src[0]]
  }

  /** The responses `src` had before reaching `rest`, one of its suffixes. */
  function Taken(src: seq<Response>, rest: seq<Response>): seq<Response>
    requires |rest| <= |src|
  {
    src[..|src| - |rest|]
  }

  /** Splitting the upstream into a consumed prefix and the rest: `Taken` recovers
      the prefix. */
  lemma TakenOfSplit(src: seq<Response>, consumed: seq<Response>, rest: seq<Response>)
    requires src == consumed + rest
    ensures |rest| <= |src| && Taken(src, rest) == consumed
  {
    assert (consumed + rest)[..|consumed|] == consumed;
  }

  /** One more upstream call moves one response from the rest to the consumed prefix. */
  lemma AdvanceSplit(src: seq<Response>, consumed: seq<Response>, rest: seq<Response>)
    requires src == consumed + rest
    ensures src == TakenAfter(consumed, rest) + Advance(rest)
  {
    if rest != [] {
      assert consumed + rest == (consumed + [rest[0]]) + rest[1..];
    }
  }

  /** Consuming one more chunk appends its passing rows. */
  lemma DeliveredSnoc(conds: seq<Condition>, consumed: seq<Response>, r: Response)
    ensures Delivered(conds, consumed + [r]) == Delivered(conds, consumed) + Passing(conds, r(FetchSize).rows)
  {
    assert (consumed + [r])[..|consumed|] == consumed;
  }

  /** Consuming one more chunk merges its error behind the earlier ones. */
  lemma FirstErrorSnoc(consumed: seq<Response>, r: Response)
    ensures FirstError(consumed + [r]) == MergeError(FirstError(consumed), None, r(FetchSize).error)
  {
    assert (consumed + [r])[..|consumed|] == consumed;
  }

  /** Consuming one more chunk after an active one skips nothing. */
  lemma NoneSkippedSnoc(consumed: seq<Response>, r: Response)
    requires NoneSkipped(consumed)
    requires consumed != [] ==>
      consumed[|consumed| - 1](FetchSize).error.None? && |consumed[|consumed| - 1](FetchSize).rows| > 0
    ensures NoneSkipped(consumed + [r])
  {
    var c := consumed + [r];
    forall i | 0 <= i < |c| - 1
      ensures c[i](FetchSize).error.None? && |c[i](FetchSize).rows| > 0
    {
      assert c[i] == consumed[i];
    }
  }

  /** Consuming one more chunk appends its passing rows, merges its error behind the
      earlier ones, makes the consumed part end empty iff the chunk had no rows, and
      keeps "none skipped" when the previously last chunk had rows and no error. */
  lemma ConsumeOne(conds: seq<Condition>, consumed: seq<Response>, r: Response)
    ensures Delivered(conds, consumed + [r]) == Delivered(conds, consumed) + Passing(conds, r(FetchSize).rows)
    ensures FirstError(consumed + [r]) == MergeError(FirstError(consumed), None, r(FetchSize).error)
    ensures LastEmpty(consumed + [r]) <==> |r(FetchSize).rows| == 0
    ensures NoneSkipped(consumed)
      && (consumed != [] ==>
            consumed[|consumed| - 1](FetchSize).error.None? && |consumed[|consumed| - 1](FetchSize).rows| > 0)
      ==> NoneSkipped(consumed + [r])
  {
    DeliveredSnoc(conds, consumed, r);
    FirstErrorSnoc(consumed, r);
    if NoneSkipped(consumed)
      && (consumed != [] ==>
            consumed[|consumed| - 1](FetchSize).error.None? && |consumed[|consumed| - 1](FetchSize).rows| > 0)
    {
      NoneSkippedSnoc(consumed, r);
    }
  }

  /** While nothing has drained the operator, the last consumed chunk had rows and
      no error. */
  lemma LastActive(consumed: seq<Response>)
    requires consumed != [] && FirstError(consumed).None? && !LastEmpty(consumed)
    ensures consumed[|consumed| - 1](FetchSize).error.None?
    ensures |consumed[|consumed| - 1](FetchSize).rows| > 0
  {
  }

  /* ---------------- The reachable states ---------------- */

  /** The responses of `orig` that `e` has already consumed. */
  function Consumed(orig: seq<Response>, e: Executor): seq<Response>
    requires |e.src| <= |orig|
  {
    Taken(orig, e.src)
  }

  /** `e` is where the operator stands after consuming `consumed` and handing out
      `emitted`: the rows handed out followed by the pending buffer are exactly the
      filtered rows of the consumed chunks, in order; the pending error is the
      earliest upstream error until it has been thrown; no chunk was fetched after
      one that drained the operator; and the operator is drained iff some consumed
      chunk failed or came back empty, or, possibly, the upstream ran out. */
  ghost predicate Reached(consumed: seq<Response>, emitted: seq<Row>, e: Executor) {
    && emitted + e.pending == Delivered(e.conditions, consumed)
    && (e.pendingError.Some? || e.hasThrownError ==> e.hasDrained)
    && (e.hasThrownError ==> e.pendingError.None? && FirstError(consumed).Some?)
    && (!e.hasThrownError ==> e.pendingError == FirstError(consumed))
    && NoneSkipped(consumed)
    && (FirstError(consumed).Some? || LastEmpty(consumed) ==> e.hasDrained)
    && (e.hasDrained ==> FirstError(consumed).Some? || LastEmpty(consumed) || e.src == [])
  }

  /** `e` is reached from an operator built over upstream `orig` after the callers
      were handed `emitted`. */
  ghost predicate Consistent(orig: seq<Response>, emitted: seq<Row>, e: Executor) {
    && |e.src| <= |orig|
    && orig == Consumed(orig, e) + e.src
    && Reached(Consumed(orig, e), emitted, e)
  }

  /* ---------------- Construction ---------------- */

  /** `new`: the referred-column analysis may fail; otherwise the pending buffer gets
      its column layout (failing on the first column that needs decoding and has no
      evaluation type) and the operator starts empty, with no error, not drained. */
  function New(infos: seq<ColumnInfo>, referred: Result<seq<nat>, Error>, conditions: seq<Condition>,
               src: seq<Response>, evalTypeOf: EvalTypeOf): (r: Result<Executor, Error>)
    requires referred.Success? ==> ValidReferences(infos, referred.value)
    ensures referred.Failure? ==> r == Failure(referred.error)
    ensures referred.Success? ==>
      (r.Failure? <==> exists i :: 0 <= i < |infos| && Unresolvable(infos, referred.value, evalTypeOf, i))
    ensures r.Success? ==>
      && r.value.conditions == conditions
      && r.value.referredColumns == referred.value
      && r.value.src == src
      && r.value.pending == []
      && r.value.pendingError == None
      && !r.value.hasThrownError
      && !r.value.hasDrained
      && |r.value.columns| == |infos|
      && (forall i :: 0 <= i < |infos| ==> (r.value.columns[i].Decoded? <==> NeedsDecoding(infos, referred.value, i)))
  {
    match referred
    case Failure(err) => Failure(err)
    case Success(refs) =>
      match BuildColumns(infos, refs, evalTypeOf)
      case Failure(err) => Failure(err)
      case Success(columns) => Success(Executor(conditions, refs, columns, src, [], None, false, false))
  }

  /** A freshly built operator is in a reachable state with nothing handed out. */
  lemma NewIsConsistent(infos: seq<ColumnInfo>, referred: Result<seq<nat>, Error>, conditions: seq<Condition>,
                        src: seq<Response>, evalTypeOf: EvalTypeOf)
    requires referred.Success? ==> ValidReferences(infos, referred.value)
    ensures New(infos, referred, conditions, src, evalTypeOf).Success? ==>
      Consistent(src, [], New(infos, referred, conditions, src, evalTypeOf).value)
  {
    TakenOfSplit(src, [], src);
  }

  /* ---------------- Fill ---------------- */

  /** `fill_buffer`: fetch one chunk of `FetchSize` rows, append the rows every
      condition holds on, in order (also when the chunk came with an error), merge
      the chunk's error first-failure-wins, and become drained iff an error is now
      pending or the chunk was empty. */
  function Fill(e: Executor): (r: Executor)
    requires !e.hasDrained
    ensures r.SameSetup(e) && r.hasThrownError == e.hasThrownError
    ensures r.src == Advance(e.src)
    ensures r.pending == e.pending + Passing(e.conditions, Fetch(e.src).rows)
    ensures e.pendingError.Some? ==> r.pendingError == e.pendingError
    ensures e.pendingError.None? ==> r.pendingError == Fetch(e.src).error
    ensures r.hasDrained <==> r.pendingError.Some? || |Fetch(e.src).rows| == 0
  {
    var result := Fetch(e.src);
    var resultIsDrained := |result.rows| == 0;
    var filtered := FilterRows(e.conditions, result.rows, AllTrue(|result.rows|));
    var pendingError := MergeError(e.pendingError, filtered.err, result.error);
    RetainedIsPassing(e.conditions, result.rows);
    e.(src := Advance(e.src),
       pending := e.pending + AppendByIndex(result.rows, filtered.retain),
       pendingError := pendingError,
       hasDrained := pendingError.Some? || resultIsDrained)
  }

  /** The facts about a fill cycle from `c` to `f` that the proofs below use: the
      operator was not drained, the fetched chunk's passing rows are appended, its
      error is merged first-failure-wins, and `f` is drained iff an error is pending
      or the chunk had no rows. */
  ghost predicate FillsTo(c: Executor, f: Executor) {
    && !c.hasDrained
    && f.SameSetup(c) && f.hasThrownError == c.hasThrownError
    && f.src == Advance(c.src)
    && f.pending == c.pending + Passing(c.conditions, Fetch(c.src).rows)
    && f.pendingError == MergeError(c.pendingError, None, Fetch(c.src).error)
    && (f.hasDrained <==> f.pendingError.Some? || |Fetch(c.src).rows| == 0)
  }

  /** A fill cycle from a reached state appends the consumed chunk's passing rows. */
  lemma FillReachedRows(consumed: seq<Response>, emitted: seq<Row>, e: Executor, f: Executor)
    requires FillsTo(e, f)
    requires emitted + e.pending == Delivered(e.conditions, consumed)
    ensures emitted + f.pending == Delivered(e.conditions, TakenAfter(consumed, e.src))
  {
    if e.src != [] {
      DeliveredSnoc(e.conditions, consumed, e.src[0]);
    }
  }

  /** A fill cycle from a reached state keeps the pending error the earliest one. */
  lemma FillReachedError(consumed: seq<Response>, e: Executor, f: Executor)
    requires FillsTo(e, f)
    requires e.pendingError == FirstError(consumed)
    ensures f.pendingError == FirstError(TakenAfter(consumed, e.src))
  {
    if e.src != [] {
      FirstErrorSnoc(consumed, e.src[0]);
    }
  }

  /** A fill cycle from a reached state skips no chunk and is drained exactly for
      the reasons `Reached` allows. */
  lemma FillReachedDrain(consumed: seq<Response>, emitted: seq<Row>, e: Executor, f: Executor)
    requires FillsTo(e, f)
    requires Reached(consumed, emitted, e)
    ensures NoneSkipped(TakenAfter(consumed, e.src))
    ensures f.hasDrained <==>
      FirstError(TakenAfter(consumed, e.src)).Some? || LastEmpty(TakenAfter(consumed, e.src)) || e.src == []
  {
    if consumed != [] {
      LastActive(consumed);
    }
    if e.src != [] {
      NoneSkippedSnoc(consumed, e.src[0]);
      FirstErrorSnoc(consumed, e.src[0]);
    }
  }

  /** A fill cycle from a reached state reaches the state with one more chunk consumed. */
  lemma FillReached(consumed: seq<Response>, emitted: seq<Row>, e: Executor)
    requires !e.hasDrained
    requires Reached(consumed, emitted, e)
    ensures Reached(TakenAfter(consumed, e.src), emitted, Fill(e))
  {
    var f := Fill(e);
    assert FillsTo(e, f);
    FillReachedRows(consumed, emitted, e, f);
    FillReachedError(consumed, e, f);
    FillReachedDrain(consumed, emitted, e, f);
  }

  /** A fill cycle keeps the operator in a reachable state. */
  lemma FillPreservesConsistent(orig: seq<Response>, emitted: seq<Row>, e: Executor)
    requires !e.hasDrained
    requires Consistent(orig, emitted, e)
    ensures Consistent(orig, emitted, Fill(e))
  {
    var consumed := Consumed(orig, e);
    FillReached(consumed, emitted, e);
    AdvanceSplit(orig, consumed, e.src);
    TakenOfSplit(orig, TakenAfter(consumed, e.src), Advance(e.src));
  }

  /** `c` is what filling turned `e` into, having consumed `taken`: same setup, the
      upstream consumed in order, the filtered rows of the consumed chunks appended
      to the buffer and their errors merged into the pending error; no chunk was
      fetched after one that drained the operator; and `c` is drained only because
      `e` was, an error is pending, a consumed chunk came back empty or the upstream
      ran out. */
  ghost predicate FilledFrom(e: Executor, c: Executor, taken: seq<Response>) {
    && c.SameSetup(e) && c.hasThrownError == e.hasThrownError
    && e.src == taken + c.src
    && c.pending == e.pending + Delivered(e.conditions, taken)
    && c.pendingError == e.pendingError.Or(FirstError(taken))
    && (e.hasDrained ==> c.hasDrained && taken == [])
    && NoneSkipped(taken)
    && (|taken| > 1 ==> e.pendingError.None?)
    && (taken != [] && (c.pendingError.Some? || LastEmpty(taken)) ==> c.hasDrained)
    && (c.hasDrained ==> e.hasDrained || c.pendingError.Some? || LastEmpty(taken) || c.src == [])
  }

  /** One more fill cycle appends the passing rows of the chunk it consumed. */
  lemma FillStepRows(e: Executor, c: Executor, f: Executor, taken: seq<Response>)
    requires FillsTo(c, f) && c.conditions == e.conditions
    requires c.pending == e.pending + Delivered(e.conditions, taken)
    ensures f.pending == e.pending + Delivered(e.conditions, TakenAfter(taken, c.src))
  {
    if c.src != [] {
      DeliveredSnoc(e.conditions, taken, c.src[0]);
    }
  }

  /** One more fill cycle merges the error of the chunk it consumed. */
  lemma FillStepError(e: Executor, c: Executor, f: Executor, taken: seq<Response>)
    requires FillsTo(c, f)
    requires c.pendingError == e.pendingError.Or(FirstError(taken))
    ensures f.pendingError == e.pendingError.Or(FirstError(TakenAfter(taken, c.src)))
  {
    if c.src != [] {
      FirstErrorSnoc(taken, c.src[0]);
    }
  }

  /** One more fill cycle skips no chunk and is drained only for a reason. */
  lemma FillStepDrain(e: Executor, c: Executor, f: Executor, taken: seq<Response>)
    requires FillsTo(c, f) && FilledFrom(e, c, taken)
    ensures NoneSkipped(TakenAfter(taken, c.src))
    ensures |TakenAfter(taken, c.src)| > 1 ==> e.pendingError.None?
    ensures f.hasDrained <==> f.pendingError.Some? || LastEmpty(TakenAfter(taken, c.src)) || c.src == []
  {
    if c.src != [] {
      if taken != [] {
        LastActive(taken);
      }
      NoneSkippedSnoc(taken, c.src[0]);
    }
  }

  /** One more fill cycle is still filling from `e`. */
  lemma FillStep(e: Executor, c: Executor, taken: seq<Response>)
    requires FilledFrom(e, c, taken) && !c.hasDrained
    ensures FilledFrom(e, Fill(c), TakenAfter(taken, c.src))
  {
    var f := Fill(c);
    assert FillsTo(c, f);
    AdvanceSplit(e.src, taken, c.src);
    FillStepRows(e, c, f, taken);
    FillStepError(e, c, f, taken);
    FillStepDrain(e, c, f, taken);
  }

  /** Filling from `e` did not go past what was needed: if it consumed any upstream
      response, the last one was fetched while fewer than `expectRows` rows were
      buffered. */
  ghost predicate StoppedInTime(e: Executor, taken: seq<Response>, expectRows: nat) {
    taken != [] ==> |e.pending| + |Delivered(e.conditions, taken[..|taken| - 1])| < expectRows
  }

  /** A fill cycle started with fewer than `expectRows` rows buffered keeps
      `StoppedInTime`. */
  lemma FillStepInTime(e: Executor, c: Executor, taken: seq<Response>, expectRows: nat)
    requires FilledFrom(e, c, taken) && !c.hasDrained && |c.pending| < expectRows
    requires StoppedInTime(e, taken, expectRows)
    ensures FilledFrom(e, Fill(c), TakenAfter(taken, c.src))
    ensures StoppedInTime(e, TakenAfter(taken, c.src), expectRows)
  {
    FillStep(e, c, taken);
    if c.src != [] {
      assert (taken + [c.src[0]])[..|taken|] == taken;
    }
  }

  /* ---------------- Emit ---------------- */

  /** What one `next_batch` call returns: the rows and, possibly, an error. */
  datatype BatchResult = BatchResult(data: seq<Row>, error: Option<Error>)

  /** The tail of `next_batch`, once filling has stopped: take the first
      `min(expectRows, buffered)` rows out of the buffer; when that is fewer than
      `expectRows`, take the pending error along and, if there was one, remember
      that an error has been thrown. */
  function Emit(e: Executor, expectRows: nat): (r: (Executor, BatchResult))
    requires !e.hasThrownError
    ensures r.0.SameSetup(e) && r.0.src == e.src && r.0.hasDrained == e.hasDrained
    ensures r.1.data + r.0.pending == e.pending
    ensures |r.1.data| == Min(expectRows, |e.pending|)
    ensures r.1.error.Some? ==> |r.1.data| < expectRows && r.0.pendingError.None?
    ensures |r.1.data| < expectRows ==> r.0.pendingError.None?
    ensures r.1.error.Or(r.0.pendingError) == e.pendingError
    ensures r.0.hasThrownError <==> r.1.error.Some?
  {
    var n := Min(expectRows, |e.pending|);
    var data := e.pending[..n];
    assert data + e.pending[n..] == e.pending;
    var error := if |data| < expectRows then e.pendingError else None;
    var pendingError := if |data| < expectRows then None else e.pendingError;
    (e.(pending := e.pending[n..], pendingError := pendingError, hasThrownError := error.Some?),
     BatchResult(data, error))
  }

  /** Emitting from a reachable state whose buffer is short only when drained keeps
      the operator reachable, and an error handed out is the earliest upstream error. */
  lemma EmitReached(consumed: seq<Response>, emitted: seq<Row>, e: Executor, expectRows: nat)
    requires !e.hasThrownError
    requires Reached(consumed, emitted, e)
    requires |e.pending| < expectRows ==> e.hasDrained
    ensures Reached(consumed, emitted + Emit(e, expectRows).1.data, Emit(e, expectRows).0)
    ensures Emit(e, expectRows).1.error.Some? ==> Emit(e, expectRows).1.error == FirstError(consumed)
  {
    var r := Emit(e, expectRows);
    assert emitted + r.1.data + r.0.pending == emitted + e.pending;
  }

  /** Emitting once filling has stopped: what `next_batch` promises about the rows,
      the drained flag and the error, in terms of the chunks consumed while filling. */
  lemma EmitAfterFill(e: Executor, c: Executor, taken: seq<Response>, expectRows: nat)
    requires !e.hasThrownError
    requires FilledFrom(e, c, taken)
    requires c.hasDrained || |c.pending| >= expectRows
    ensures var (e', result) := Emit(c, expectRows);
      && result.data + e'.pending == e.pending + Delivered(e.conditions, taken)
      && |result.data| == Min(expectRows, |result.data| + |e'.pending|)
      && (e'.hasDrained ==>
            e.hasDrained || result.error.Or(e'.pendingError).Some? || LastEmpty(taken) || e'.src == [])
      && (|result.data| < expectRows ==> e'.hasDrained)
      && (|result.data| < expectRows ==>
            e.hasDrained || result.error.Some? || LastEmpty(taken) || e'.src == [])
      && result.error.Or(e'.pendingError) == e.pendingError.Or(FirstError(taken))
  {
  }

  /** One iteration of the fill loop keeps the loop's invariants and makes progress. */
  lemma FillLoopStep(e: Executor, c: Executor, taken: seq<Response>, expectRows: nat,
                     orig: seq<Response>, emitted: seq<Row>)
    requires FilledFrom(e, c, taken) && StoppedInTime(e, taken, expectRows)
    requires Consistent(orig, emitted, e) ==> Consistent(orig, emitted, c)
    requires !c.hasDrained && |c.pending| < expectRows
    ensures FilledFrom(e, Fill(c), TakenAfter(taken, c.src))
    ensures StoppedInTime(e, TakenAfter(taken, c.src), expectRows)
    ensures Consistent(orig, emitted, e) ==> Consistent(orig, emitted, Fill(c))
    ensures |Fill(c).src| + (if Fill(c).hasDrained then 0 else 1) < |c.src| + 1
  {
    FillStepInTime(e, c, taken, expectRows);
    if Consistent(orig, emitted, c) {
      FillPreservesConsistent(orig, emitted, c);
    }
  }

  /** The fill loop of `next_batch`: run fill cycles while the operator is not
      drained and fewer than `expectRows` rows are buffered. `taken` is the part of
      the upstream consumed on the way. */
  method FillUntil(e: Executor, expectRows: nat, ghost orig: seq<Response>, ghost emitted: seq<Row>)
    returns (c: Executor, ghost taken: seq<Response>)
    ensures c.hasDrained || |c.pending| >= expectRows
    ensures FilledFrom(e, c, taken) && StoppedInTime(e, taken, expectRows)
    ensures Consistent(orig, emitted, e) ==> Consistent(orig, emitted, c)
  {
    c := e;
    taken := [];
    while !c.hasDrained && |c.pending| < expectRows
      invariant FilledFrom(e, c, taken) && StoppedInTime(e, taken, expectRows)
      invariant Consistent(orig, emitted, e) ==> Consistent(orig, emitted, c)
      decreases |c.src| + (if c.hasDrained then 0 else 1)
    {
      FillLoopStep(e, c, taken, expectRows, orig, emitted);
      taken := TakenAfter(taken, c.src);
      c := Fill(c);
    }
  }

  /** `next_batch(expect_rows)`: fill while not drained and fewer than `expectRows`
      rows are buffered, then emit. Calling it after an error has been returned is a
      caller bug (an assertion in the operator), hence the precondition. */
  method Next(e: Executor, expectRows: nat, ghost orig: seq<Response>, ghost emitted: seq<Row>)
    returns (e': Executor, result: BatchResult)
    requires !e.hasThrownError
    ensures e'.SameSetup(e)
    // the upstream is consumed in order; a drained operator consumes nothing more
    ensures |e'.src| <= |e.src| && e.src == Taken(e.src, e'.src) + e'.src
    ensures e.hasDrained ==> e'.src == e.src
    // filling stops as soon as expectRows rows are buffered, and no chunk is
    // fetched after one that failed or came back empty
    ensures StoppedInTime(e, Taken(e.src, e'.src), expectRows)
    ensures NoneSkipped(Taken(e.src, e'.src))
    ensures |Taken(e.src, e'.src)| > 1 ==> e.pendingError.None?
    // rows: the result and the new buffer continue the old buffer with the newly
    // filtered rows, and the result is the first min(expectRows, buffered) of them
    ensures result.data + e'.pending == e.pending + Delivered(e.conditions, Taken(e.src, e'.src))
    ensures |result.data| == Min(expectRows, |result.data| + |e'.pending|)
    // draining: a drained operator stays drained; it is drained only because it
    // was before, an error came up, a chunk came back empty or the upstream ran
    // out, and a short result only comes from such a drained operator
    ensures e.hasDrained ==> e'.hasDrained
    ensures e'.hasDrained ==>
      e.hasDrained || result.error.Or(e'.pendingError).Some? || LastEmpty(Taken(e.src, e'.src)) || e'.src == []
    ensures |result.data| < expectRows ==> e'.hasDrained
    ensures |result.data| < expectRows ==>
      e.hasDrained || result.error.Some? || LastEmpty(Taken(e.src, e'.src)) || e'.src == []
    // errors: returned only with a short result, then no longer pending; either
    // returned or still pending, never lost, and an older error is never replaced
    ensures result.error.Some? ==> |result.data| < expectRows && e'.pendingError.None?
    ensures |result.data| < expectRows ==> e'.pendingError.None?
    ensures result.error.Or(e'.pendingError) == e.pendingError.Or(FirstError(Taken(e.src, e'.src)))
    ensures e'.hasThrownError <==> result.error.Some?
    // across calls: the operator stays reachable, and a returned error is the
    // earliest error the upstream produced
    ensures Consistent(orig, emitted, e) ==> Consistent(orig, emitted + result.data, e')
    ensures Consistent(orig, emitted, e) && result.error.Some? ==> result.error == FirstError(Consumed(orig, e'))
  {
    var cur;
    ghost var taken;
    cur, taken := FillUntil(e, expectRows, orig, emitted);
    TakenOfSplit(e.src, taken, cur.src);
    EmitAfterFill(e, cur, taken, expectRows);
    if Consistent(orig, emitted, cur) {
      EmitReached(Consumed(orig, cur), emitted, cur, expectRows);
    }
    var r := Emit(cur, expectRows);
    e' := r.0;
    result := r.1;
  }
}
