/** The shape both extractors share: a loop over query rows that, per row,
    appends a record, skips the row (`continue`), or raises an exception
    that the outer handler turns into an empty result for the whole batch. */
module Batch {
  import opened Text

  datatype Outcome<M> = Emit(record: M) | Skip | Abort

  /** The records of a batch in row order, or None when some row aborts. */
  function Collect<R, M>(rows: seq<R>, f: R -> Outcome<M>): Option<seq<M>> {
    if rows == [] then Some([])
    else
      match Collect(rows[..|rows| - 1], f)
      case None => None
      case Some(ms) =>
        match f(rows[|rows| - 1])
        case Abort => None
        case Skip => Some(ms)
        case Emit(m) => Some(ms + [m])
  }

  /** Indices of the rows that emit a record, in row order. */
  function EmittedIndices<R, M>(rows: seq<R>, f: R -> Outcome<M>): seq<nat> {
    if rows == [] then []
    else
      EmittedIndices(rows[..|rows| - 1], f) +
      (if f(rows[|rows| - 1]).Emit? then [|rows| - 1] else [])
  }

  /** One more row: how the loop's accumulated result grows. */
  lemma CollectStep<R, M>(rows: seq<R>, i: nat, f: R -> Outcome<M>)
    requires i < |rows|
    ensures Collect(rows[..i + 1], f) ==
              match Collect(rows[..i], f)
              case None => None
              case Some(ms) =>
                match f(rows[i])
                case Abort => None
                case Skip => Some(ms)
                case Emit(m) => Some(ms + [m])
  {
    assert rows[..i + 1][..i] == rows[..i];
  }

  /** Once a prefix has aborted, the whole batch has. */
  lemma {:induction false} AbortIsFinal<R, M>(rows: seq<R>, i: nat, f: R -> Outcome<M>)
    requires i <= |rows| && Collect(rows[..i], f).None?
    ensures Collect(rows, f).None?
    decreases |rows| - i
  {
    if i < |rows| {
      CollectStep(rows, i, f);
      AbortIsFinal(rows, i + 1, f);
    } else {
      assert rows[..i] == rows;
    }
  }

  /** A batch is lost exactly when one of its rows aborts. */
  lemma {:induction false} CollectAbortsIff<R, M>(rows: seq<R>, f: R -> Outcome<M>)
    ensures Collect(rows, f).None? <==> exists i :: 0 <= i < |rows| && f(rows[i]).Abort?
    decreases |rows|
  {
    if rows != [] {
      var init := rows[..|rows| - 1];
      CollectAbortsIff(init, f);
      if exists i :: 0 <= i < |init| && f(init[i]).Abort? {
        var i :| 0 <= i < |init| && f(init[i]).Abort?;
        assert rows[i] == init[i];
      }
      if exists i :: 0 <= i < |rows| && f(rows[i]).Abort? {
        var i :| 0 <= i < |rows| && f(rows[i]).Abort?;
        if i < |init| {
          assert init[i] == rows[i];
        }
      }
    }
  }

  /** A collected batch is exactly the emitting rows' records, in row
      order: skipped rows never appear and no emitting row is missed. */
  lemma {:induction false} CollectKeepsRowOrder<R, M>(rows: seq<R>, f: R -> Outcome<M>)
    requires Collect(rows, f).Some?
    ensures var ms := Collect(rows, f).value;
            var idx := EmittedIndices(rows, f);
            |ms| == |idx| &&
            (forall k :: 0 <= k < |idx| ==> idx[k] < |rows| && f(rows[idx[k]]) == Emit(ms[k])) &&
            (forall k, l :: 0 <= k < l < |idx| ==> idx[k] < idx[l]) &&
            (forall i :: 0 <= i < |rows| && f(rows[i]).Emit? ==> i in idx)
    decreases |rows|
  {
    if rows != [] {
      var init := rows[..|rows| - 1];
      CollectKeepsRowOrder(init, f);
      var idx := EmittedIndices(rows, f);
      var idx0 := EmittedIndices(init, f);
      forall k | 0 <= k < |idx0| ensures rows[idx0[k]] == init[idx0[k]] {
      }
      forall i | 0 <= i < |rows| && f(rows[i]).Emit? ensures i in idx {
        if i < |init| {
          assert init[i] == rows[i];
          assert i in idx0;
        }
      }
    }
  }

  /** When no row is ever skipped, a collected batch has exactly one
      record per row, in row order. */
  lemma {:induction false} CollectOnePerRow<R, M>(rows: seq<R>, f: R -> Outcome<M>)
    requires forall i :: 0 <= i < |rows| ==> !f(rows[i]).Skip?
    requires Collect(rows, f).Some?
    ensures var ms := Collect(rows, f).value;
            |ms| == |rows| && forall i :: 0 <= i < |rows| ==> f(rows[i]) == Emit(ms[i])
    decreases |rows|
  {
    if rows != [] {
      var init := rows[..|rows| - 1];
      assert forall i :: 0 <= i < |init| ==> init[i] == rows[i];
      CollectOnePerRow(init, f);
    }
  }
}
