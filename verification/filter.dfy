/** Row filtering of one fetched chunk: every condition is evaluated over the whole
    chunk, the per-row results are AND-ed into a retain map, and the retained rows
    are appended, in order, to the pending buffer. */
module Filter {
  import opened Wrappers
  import opened Batch

  /** A compiled condition, seen as the boolean it yields on each row. */
  type Condition = Row -> bool

  /** The row passes the conjunction: every condition holds on it. */
  predicate AllHold(conds: seq<Condition>, row: Row) {
    forall k :: 0 <= k < |conds| ==> conds[k](row)
  }

  /** Reference semantics of filtering, independent of retain maps: the rows of
      `rows` on which every condition holds, in their original order. */
  function Passing(conds: seq<Condition>, rows: seq<Row>): (r: seq<Row>)
    ensures |r| <= |rows|
  {
    if rows == [] then []
    else (if AllHold(conds, rows[0]) then [rows[0]] else []) + Passing(conds, rows[1..])
  }

  /** The retain map a fill cycle starts from: one `true` per row. */
  function AllTrue(n: nat): (r: seq<bool>)
    ensures |r| == n
    ensures forall i :: 0 <= i < n ==> r[i]
  {
    seq(n, _ => true)
  }

  /** The per-row booleans one condition yields over a chunk (`eval_as_bools`). */
  function EvalAsBools(cond: Condition, rows: seq<Row>): (r: seq<bool>)
    ensures |r| == |rows|
    ensures forall i :: 0 <= i < |rows| ==> r[i] == cond(rows[i])
  {
    seq(|rows|, i requires 0 <= i < |rows| => cond(rows[i]))
  }

  /** `base[i] &= head[i]` for every row `i` of the chunk; entries of `base` past
      the chunk's rows are left alone. */
  function AndMerge(base: seq<bool>, head: seq<bool>): (r: seq<bool>)
    requires |head| <= |base|
    ensures |r| == |base|
    ensures forall i :: 0 <= i < |head| ==> r[i] == (base[i] && head[i])
    ensures forall i :: |head| <= i < |base| ==> r[i] == base[i]
  {
    seq(|base|, i requires 0 <= i < |base| => if i < |head| then base[i] && head[i] else base[i])
  }

  /** What `filter_rows` leaves behind: the updated retain map and its own result.
      `filter_rows` never fails here, so `err` is always `None`. */
  datatype FilterOutcome = FilterOutcome(retain: seq<bool>, err: Option<Error>)

  /** `filter_rows`: the conditions are applied in list order, each one evaluated
      over every row of the chunk and AND-ed into the retain map. A row stays
      retained iff it was retained before and every condition holds on it. */
  function FilterRows(conds: seq<Condition>, rows: seq<Row>, base: seq<bool>): (r: FilterOutcome)
    requires |rows| <= |base|
    ensures r.err == None
    ensures |r.retain| == |base|
    ensures forall i :: 0 <= i < |rows| ==> (r.retain[i] <==> base[i] && AllHold(conds, rows[i]))
    ensures forall i :: |rows| <= i < |base| ==> r.retain[i] == base[i]
    decreases |conds|
  {
    if conds == [] then FilterOutcome(base, None)
    else
      var r := FilterRows(conds[1..], rows, AndMerge(base, EvalAsBools(conds[0], rows)));
      assert forall row :: AllHold(conds, row) <==> conds[0](row) && AllHold(conds[1..], row) by {
        forall row ensures AllHold(conds, row) <==> conds[0](row) && AllHold(conds[1..], row) {
          if conds[0](row) && AllHold(conds[1..], row) {
            forall k | 0 <= k < |conds| ensures conds[k](row) {
              if k > 0 { assert conds[k] == conds[1..][k - 1]; }
            }
          }
        }
      }
      r
  }

  /** Two condition lists that pass the same rows of the chunk retain the same rows. */
  lemma SameConjunctionSameRetain(ca: seq<Condition>, cb: seq<Condition>, rows: seq<Row>, base: seq<bool>)
    requires |rows| <= |base|
    requires forall i :: 0 <= i < |rows| ==> (AllHold(ca, rows[i]) <==> AllHold(cb, rows[i]))
    ensures FilterRows(ca, rows, base).retain == FilterRows(cb, rows, base).retain
  {
  }

  /** The order in which the conditions are listed does not change the retain map:
      applying `c1` then `c2` retains the same rows as applying `c2` then `c1`. */
  lemma FilterRowsOrderFree(c1: seq<Condition>, c2: seq<Condition>, rows: seq<Row>, base: seq<bool>)
    requires |rows| <= |base|
    ensures FilterRows(c1 + c2, rows, base).retain == FilterRows(c2 + c1, rows, base).retain
  {
    forall i | 0 <= i < |rows| ensures AllHold(c1 + c2, rows[i]) <==> AllHold(c2 + c1, rows[i]) {
      AllHoldConcat(c1, c2, rows[i]);
      AllHoldConcat(c2, c1, rows[i]);
    }
    SameConjunctionSameRetain(c1 + c2, c2 + c1, rows, base);
  }

  /** A row passes a joined condition list iff it passes both parts. */
  lemma AllHoldConcat(c1: seq<Condition>, c2: seq<Condition>, row: Row)
    ensures AllHold(c1 + c2, row) <==> AllHold(c1, row) && AllHold(c2, row)
  {
    if AllHold(c1, row) && AllHold(c2, row) {
      forall k | 0 <= k < |c1 + c2| ensures (c1 + c2)[k](row) {
        if k >= |c1| { assert (c1 + c2)[k] == c2[k - |c1|]; }
      }
    }
    if AllHold(c1 + c2, row) {
      forall k | 0 <= k < |c1| ensures c1[k](row) {
        assert (c1 + c2)[k] == c1[k];
      }
      forall k | 0 <= k < |c2| ensures c2[k](row) {
        assert (c1 + c2)[|c1| + k] == c2[k];
      }
    }
  }

  /** `append_by_index`: the rows whose retain-map entry is `true`, in order. */
  function AppendByIndex(rows: seq<Row>, keep: seq<bool>): (r: seq<Row>)
    requires |rows| <= |keep|
    ensures |r| <= |rows|
    ensures forall x :: x in r ==> x in rows
  {
    if rows == [] then []
    else (if keep[0] then [rows[0]] else []) + AppendByIndex(rows[1..], keep[1..])
  }

  /** A row is appended iff some position of the chunk holds it and is marked in
      the retain map. */
  lemma {:induction false} AppendByIndexMembership(rows: seq<Row>, keep: seq<bool>, x: Row)
    requires |rows| <= |keep|
    ensures x in AppendByIndex(rows, keep) <==> exists i :: 0 <= i < |rows| && keep[i] && rows[i] == x
    decreases |rows|
  {
    if rows != [] {
      AppendByIndexMembership(rows[1..], keep[1..], x);
      if exists i :: 0 <= i < |rows| && keep[i] && rows[i] == x {
        var i :| 0 <= i < |rows| && keep[i] && rows[i] == x;
        if i > 0 { assert rows[1..][i - 1] == x && keep[1..][i - 1]; }
      }
      if x in AppendByIndex(rows[1..], keep[1..]) {
        var j :| 0 <= j < |rows[1..]| && keep[1..][j] && rows[1..][j] == x;
        assert keep[j + 1] && rows[j + 1] == x;
      }
    }
  }

  /** Appending by index distributes over joined chunks and joined retain maps. */
  lemma {:induction false} AppendByIndexConcat(a: seq<Row>, ka: seq<bool>, b: seq<Row>, kb: seq<bool>)
    requires |ka| == |a| && |b| <= |kb|
    ensures AppendByIndex(a + b, ka + kb) == AppendByIndex(a, ka) + AppendByIndex(b, kb)
    decreases |a|
  {
    if a == [] {
      assert a + b == b && ka + kb == kb;
    } else {
      var head := if ka[0] then [a[0]] else [];
      assert (a + b)[1..] == a[1..] + b;
      assert (ka + kb)[1..] == ka[1..] + kb;
      calc {
        AppendByIndex(a + b, ka + kb);
        head + AppendByIndex(a[1..] + b, ka[1..] + kb);
        { AppendByIndexConcat(a[1..], ka[1..], b, kb); }
        head + (AppendByIndex(a[1..], ka[1..]) + AppendByIndex(b, kb));
        (head + AppendByIndex(a[1..], ka[1..])) + AppendByIndex(b, kb);
        AppendByIndex(a, ka) + AppendByIndex(b, kb);
      }
    }
  }

  /** An all-true retain map keeps every row, unchanged and in order. */
  lemma {:induction false} AppendByIndexAllTrue(rows: seq<Row>)
    ensures AppendByIndex(rows, AllTrue(|rows|)) == rows
    decreases |rows|
  {
    if rows != [] {
      AppendByIndexAllTrue(rows[1..]);
      assert AllTrue(|rows|)[1..] == AllTrue(|rows[1..]|);
      assert rows == [rows[0]] + rows[1..];
    }
  }

  /** The rows one fill cycle adds to the pending buffer: the chunk filtered through
      a retain map that starts all-true. */
  function Retained(conds: seq<Condition>, rows: seq<Row>): seq<Row> {
    AppendByIndex(rows, FilterRows(conds, rows, AllTrue(|rows|)).retain)
  }

  /** A row is passing iff it is a row of the chunk and every condition holds on it. */
  lemma {:induction false} PassingMembership(conds: seq<Condition>, rows: seq<Row>, x: Row)
    ensures x in Passing(conds, rows) <==> x in rows && AllHold(conds, x)
    decreases |rows|
  {
    if rows != [] {
      PassingMembership(conds, rows[1..], x);
      assert rows == [rows[0]] + rows[1..];
    }
  }

  /** Appending by a retain map that marks exactly the rows passing the conjunction
      yields the passing rows. */
  lemma {:induction false} AppendByConjunction(conds: seq<Condition>, rows: seq<Row>, keep: seq<bool>)
    requires |rows| <= |keep|
    requires forall i :: 0 <= i < |rows| ==> (keep[i] <==> AllHold(conds, rows[i]))
    ensures AppendByIndex(rows, keep) == Passing(conds, rows)
    decreases |rows|
  {
    if rows != [] {
      AppendByConjunction(conds, rows[1..], keep[1..]);
    }
  }

  /** The retain-map pipeline of a fill cycle agrees with the reference semantics:
      a fetched row is appended iff every condition holds on it, in original order. */
  lemma RetainedIsPassing(conds: seq<Condition>, rows: seq<Row>)
    ensures Retained(conds, rows) == Passing(conds, rows)
  {
    AppendByConjunction(conds, rows, FilterRows(conds, rows, AllTrue(|rows|)).retain);
  }

  /** Filtering distributes over concatenation: filtering two stretches of rows one
      after the other gives the same rows, in the same order, as filtering them joined. */
  lemma {:induction false} PassingConcat(conds: seq<Condition>, a: seq<Row>, b: seq<Row>)
    ensures Passing(conds, a + b) == Passing(conds, a) + Passing(conds, b)
    decreases |a|
  {
    if a != [] {
      PassingConcat(conds, a[1..], b);
      assert (a + b)[1..] == a[1..] + b;
    } else {
      assert a + b == b;
    }
  }

  /** With no conditions every row passes. */
  lemma {:induction false} PassingNoConditions(rows: seq<Row>)
    ensures Passing([], rows) == rows
    decreases |rows|
  {
    if rows != [] {
      PassingNoConditions(rows[1..]);
      assert rows == [rows[0]] + rows[1..];
    }
  }

  /** With an empty condition list every fetched row is retained, unchanged. */
  lemma NoConditionsRetainAll(rows: seq<Row>)
    ensures Retained([], rows) == rows
  {
    RetainedIsPassing([], rows);
    PassingNoConditions(rows);
  }
}
