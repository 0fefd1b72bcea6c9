/** The savepoint loop shared by the bulk operations: one transaction, one savepoint taken before
    the first item, a rollback to it whenever an item fails, and a commit only if none failed. */
module Savepoints {
  import opened Basics

  /** One item applied to the transaction: either the new transaction state and a response, or an error. */
  type Step<!S, !Q, !R, !E> = (S, Q) -> Result<(S, R), E>

  /** The plain meaning: apply the items one after the other and stop at the first failure. */
  ghost function Sequentially<S, Q, R, E>(before: S, items: seq<Q>, step: Step<S, Q, R, E>): Result<(S, seq<R>), E> {
    if items == [] then
      Ok((before, []))
    else
      var last := |items| - 1;
      match Sequentially(before, items[..last], step)
      case Err(e) => Err(e)
      case Ok((tx, responses)) =>
        match step(tx, items[last])
        case Err(e) => Err(e)
        case Ok((tx', r)) => Ok((tx', responses + [r]))
  }

  /** The transaction after some items: the savepoint plus what was applied since the last failure. */
  ghost function SinceLastFailure<S, Q, R, E>(before: S, items: seq<Q>, step: Step<S, Q, R, E>): S {
    if items == [] then
      before
    else
      match step(SinceLastFailure(before, items[..|items| - 1], step), items[|items| - 1])
      case Err(_) => before
      case Ok((tx, _)) => tx
  }

  /** The error reported for the last of `items`, which is judged against the transaction as the
      earlier items, and their rollbacks, left it. */
  ghost function ErrorOfLast<S, Q, R, E>(before: S, items: seq<Q>, step: Step<S, Q, R, E>): Option<E>
    requires items != []
  {
    match step(SinceLastFailure(before, items[..|items| - 1], step), items[|items| - 1])
    case Err(e) => Some(e)
    case Ok(_) => None
  }

  /** While nothing has failed the transaction is the plain sequential result. */
  lemma {:induction false} SequentialWhileClean<S, Q, R, E>(before: S, items: seq<Q>, step: Step<S, Q, R, E>)
    requires Sequentially(before, items, step).Ok?
    ensures SinceLastFailure(before, items, step) == Sequentially(before, items, step).value.0
    ensures |Sequentially(before, items, step).value.1| == |items|
  {
    if items != [] {
      SequentialWhileClean(before, items[..|items| - 1], step);
    }
  }

  /** What holds before the first item and is kept by every item that succeeds holds after all of them. */
  lemma {:induction false} SequentialInvariant<S(!new), Q(!new), R(!new), E>(
      before: S, items: seq<Q>, step: Step<S, Q, R, E>, inv: (S, seq<Q>, seq<R>) -> bool)
    requires Sequentially(before, items, step).Ok? && inv(before, [], [])
    requires forall s, qs, rs, q :: inv(s, qs, rs) && step(s, q).Ok? ==>
                                      inv(step(s, q).value.0, qs + [q], rs + [step(s, q).value.1])
    ensures var (after, responses) := Sequentially(before, items, step).value; inv(after, items, responses)
  {
    if items != [] {
      var front, q := items[..|items| - 1], items[|items| - 1];
      SequentialInvariant(before, front, step, inv);
      var (mid, responses) := Sequentially(before, front, step).value;
      assert inv(step(mid, q).value.0, front + [q], responses + [step(mid, q).value.1]);
      assert front + [q] == items;
    }
  }

  /** The item at `i` succeeds in the state that the earlier ones left. */
  ghost predicate Succeeds<S, Q, R, E>(before: S, items: seq<Q>, step: Step<S, Q, R, E>, i: int)
    requires 0 <= i < |items|
  {
    var r := Sequentially(before, items[..i], step);
    r.Ok? && step(r.value.0, items[i]).Ok?
  }

  lemma SucceedsInPrefix<S, Q, R, E>(before: S, items: seq<Q>, step: Step<S, Q, R, E>, n: int, i: int)
    requires 0 <= i < n <= |items|
    ensures Succeeds(before, items[..n], step, i) == Succeeds(before, items, step, i)
  {
    assert items[..n][..i] == items[..i];
  }

  /** A list succeeds exactly when each item does in turn. */
  lemma {:induction false} SequentialOkExactly<S, Q, R, E>(before: S, items: seq<Q>, step: Step<S, Q, R, E>)
    ensures Sequentially(before, items, step).Ok? <==>
              forall i :: 0 <= i < |items| ==> Succeeds(before, items, step, i)
  {
    if items != [] {
      var last := |items| - 1;
      SequentialOkExactly(before, items[..last], step);
      forall i | 0 <= i < last {
        SucceedsInPrefix(before, items, step, last, i);
      }
      assert Sequentially(before, items, step).Ok? <==> Succeeds(before, items, step, last);
    }
  }

  /** Items that change nothing by themselves change nothing in a row, and succeed in a row exactly when
      each does by itself. */
  lemma {:induction false} StationaryItems<S, Q, R, E>(before: S, items: seq<Q>, step: Step<S, Q, R, E>)
    requires forall i :: 0 <= i < |items| && step(before, items[i]).Ok? ==> step(before, items[i]).value.0 == before
    ensures var r := Sequentially(before, items, step);
            && (r.Ok? ==> r.value.0 == before)
            && (r.Ok? <==> forall i :: 0 <= i < |items| ==> step(before, items[i]).Ok?)
  {
    if items != [] {
      var last := |items| - 1;
      assert forall i :: 0 <= i < last ==> items[..last][i] == items[i];
      StationaryItems(before, items[..last], step);
    }
  }

  /** One item more, in terms of the transaction that it finds. */
  lemma NextItem<S, Q, R, E>(before: S, items: seq<Q>, step: Step<S, Q, R, E>, i: int)
    requires 0 <= i < |items|
    ensures var tx := SinceLastFailure(before, items[..i], step);
            match step(tx, items[i])
            case Err(e) =>
              && SinceLastFailure(before, items[..i + 1], step) == before
              && ErrorOfLast(before, items[..i + 1], step) == Some(e)
            case Ok((tx', _)) =>
              && SinceLastFailure(before, items[..i + 1], step) == tx'
              && ErrorOfLast(before, items[..i + 1], step) == None
    ensures match Sequentially(before, items[..i], step)
            case Err(e) => Sequentially(before, items[..i + 1], step) == Err(e)
            case Ok((tx, responses)) =>
              match step(tx, items[i])
              case Err(e) => Sequentially(before, items[..i + 1], step) == Err(e)
              case Ok((tx', r)) => Sequentially(before, items[..i + 1], step) == Ok((tx', responses + [r]))
  {
    var all := items[..i + 1];
    assert all[..|all| - 1] == items[..i] && all[|all| - 1] == items[i];
  }

  /** Bulk operations are all-or-nothing: they commit the sequential result exactly when every item
      succeeds in order, and otherwise report one entry per item and leave the store as it was. */
  method RunBulk<S, Q, R, E>(before: S, items: seq<Q>, step: Step<S, Q, R, E>)
    returns (after: S, responses: seq<R>, errors: seq<Option<E>>)
    ensures errors == [] <==> Sequentially(before, items, step).Ok?
    ensures errors == [] ==>
              && (after, responses) == Sequentially(before, items, step).value
              && |responses| == |items|
    ensures errors != [] ==>
              && after == before
              && responses == []
              && |errors| == |items|
              && (exists i :: 0 <= i < |errors| && errors[i].Some?)
              && (forall i :: 0 <= i < |errors| ==> errors[i] == ErrorOfLast(before, items[..i + 1], step))
  {
    var savepoint := before;
    var tx := before;
    var failed := false;
    responses := [];
    errors := [];
    for i := 0 to |items|
      invariant |errors| == i
      invariant tx == SinceLastFailure(before, items[..i], step)
      invariant !failed <==> Sequentially(before, items[..i], step).Ok?
      invariant !failed ==> (tx, responses) == Sequentially(before, items[..i], step).value
      invariant failed <==> exists j :: 0 <= j < i && errors[j].Some?
      invariant forall j :: 0 <= j < i ==> errors[j] == ErrorOfLast(before, items[..j + 1], step)
    {
      NextItem(before, items, step, i);
      match step(tx, items[i])
      case Err(e) =>
        errors := errors + [Some(e)];
        assert errors[i].Some?;
        failed := true;
        tx := savepoint;
      case Ok((tx', r)) =>
        ghost var before' := errors;
        errors := errors + [None];
        assert forall j :: 0 <= j < i ==> errors[j] == before'[j];
        tx := tx';
        if !failed {
          responses := responses + [r];
        }
    }
    assert items[..|items|] == items;
    if failed {
      return savepoint, [], errors;
    }
    SequentialWhileClean(before, items, step);
    return tx, responses, [];
  }
}
