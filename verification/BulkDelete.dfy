/** Bulk soft deletion, shared by repository configurations and snapshots: each identifier is looked up
    outside the transaction and its row is then marked as deleted inside it. */
module BulkDelete {
  import opened Basics
  import opened Savepoints

  datatype LookupError = NoSuchRow(id: Uuid)

  /** The rows `ids` marked, every other row as it was. */
  function MarkAll<R>(table: map<Uuid, R>, ids: set<Uuid>, mark: R -> R): map<Uuid, R> {
    map id | id in table :: if id in ids then mark(table[id]) else table[id]
  }

  /** `visible` are the rows the lookup finds. It reads committed state, so it is the same for every
      item of the list whatever the transaction has already marked. */
  function DeleteStep<R>(visible: set<Uuid>, mark: R -> R): Step<map<Uuid, R>, Uuid, Uuid, LookupError> {
    (tx: map<Uuid, R>, id: Uuid) =>
      if id in visible then Ok((MarkAll(tx, {id}, mark), id)) else Err(NoSuchRow(id))
  }

  ghost predicate MarksOnce<R(!new)>(mark: R -> R) {
    forall r :: mark(mark(r)) == mark(r)
  }

  /** The loop marks exactly the listed rows, and fails exactly when some lookup does. */
  lemma {:induction false} DeletionIsBySet<R(!new)>(table: map<Uuid, R>, ids: seq<Uuid>, visible: set<Uuid>,
      mark: R -> R)
    requires MarksOnce(mark)
    ensures var r := Sequentially(table, ids, DeleteStep(visible, mark));
            && (r.Ok? <==> Elements(ids) <= visible)
            && (r.Ok? ==> r.value == (MarkAll(table, Elements(ids), mark), ids))
  {
    if ids == [] {
      assert MarkAll(table, Elements(ids), mark) == table;
    } else {
      var front, id := ids[..|ids| - 1], ids[|ids| - 1];
      DeletionIsBySet(table, front, visible, mark);
      assert front + [id] == ids;
      assert Elements(ids) == Elements(front) + {id};
      MarkAllThenOne(table, front, id, mark);
    }
  }

  /** Each entry of the error list tells whether its own identifier was found. */
  lemma ErrorTellsOwnLookup<R>(table: map<Uuid, R>, ids: seq<Uuid>, visible: set<Uuid>, mark: R -> R, i: int)
    requires 0 <= i < |ids|
    ensures ErrorOfLast(table, ids[..i + 1], DeleteStep(visible, mark)) ==
            if ids[i] in visible then None else Some(NoSuchRow(ids[i]))
  {
  }

  /** The whole operation on a table: either every listed row is marked and no other, or some identifier
      was not found, each entry of the error list tells which, and the table is as it was. */
  method MarkListed<R(!new)>(table: map<Uuid, R>, ids: seq<Uuid>, visible: set<Uuid>, mark: R -> R)
    returns (table': map<Uuid, R>, errors: seq<Option<LookupError>>)
    requires MarksOnce(mark)
    ensures errors == [] <==> forall i :: 0 <= i < |ids| ==> ids[i] in visible
    ensures errors == [] ==> table' == MarkAll(table, Elements(ids), mark)
    ensures errors == [] ==>
              && table'.Keys == table.Keys
              && forall id :: id in table ==> table'[id] == if id in ids then mark(table[id]) else table[id]
    ensures errors != [] ==> table' == table && |errors| == |ids|
    ensures errors != [] ==>
              forall i :: 0 <= i < |ids| ==> errors[i] == if ids[i] in visible then None else Some(NoSuchRow(ids[i]))
  {
    var deleted;
    table', deleted, errors := RunBulk(table, ids, DeleteStep(visible, mark));
    DeletionIsBySet(table, ids, visible, mark);
    forall i | 0 <= i < |ids| {
      ErrorTellsOwnLookup(table, ids, visible, mark, i);
    }
    assert forall i :: 0 <= i < |ids| ==> ids[i] in Elements(ids);
  }

  /** Order and repetition do not matter: lists with the same identifiers have the same outcome. */
  lemma DeletionDependsOnSetOnly<R(!new)>(table: map<Uuid, R>, a: seq<Uuid>, b: seq<Uuid>, visible: set<Uuid>,
      mark: R -> R)
    requires MarksOnce(mark) && Elements(a) == Elements(b)
    ensures var ra := Sequentially(table, a, DeleteStep(visible, mark));
            var rb := Sequentially(table, b, DeleteStep(visible, mark));
            && (ra.Ok? <==> rb.Ok?)
            && (ra.Ok? ==> ra.value.0 == rb.value.0)
  {
    DeletionIsBySet(table, a, visible, mark);
    DeletionIsBySet(table, b, visible, mark);
  }

  /** The same loop with the lookup made inside the transaction, for comparison. */
  function RereadingStep<R>(finds: R -> bool, mark: R -> R): Step<map<Uuid, R>, Uuid, Uuid, LookupError> {
    (tx: map<Uuid, R>, id: Uuid) =>
      if id in tx && finds(tx[id]) then Ok((MarkAll(tx, {id}, mark), id)) else Err(NoSuchRow(id))
  }

  lemma MarkAllThenOne<R(!new)>(table: map<Uuid, R>, ids: seq<Uuid>, id: Uuid, mark: R -> R)
    requires MarksOnce(mark)
    ensures MarkAll(MarkAll(table, Elements(ids), mark), {id}, mark) == MarkAll(table, Elements(ids + [id]), mark)
  {
    assert Elements(ids + [id]) == Elements(ids) + {id};
  }

  lemma DistinctAppend<T>(s: seq<T>, x: T)
    ensures Distinct(s + [x]) <==> Distinct(s) && x !in s
  {
    ElementsSize(s);
    ElementsSize(s + [x]);
    assert Elements(s + [x]) == Elements(s) + {x};
    assert x in s <==> x in Elements(s);
  }

  /** Set semantics rests on the lookups reading committed rows: inside the transaction a repeated
      identifier would not be found the second time, and the whole deletion would be refused. */
  lemma {:induction false} RereadingAcceptsExactlyDistinct<R(!new)>(table: map<Uuid, R>, ids: seq<Uuid>,
      finds: R -> bool, mark: R -> R)
    requires MarksOnce(mark) && forall r :: !finds(mark(r))
    ensures var r := Sequentially(table, ids, RereadingStep(finds, mark));
            && (r.Ok? <==> Distinct(ids) && forall id :: id in ids ==> id in table && finds(table[id]))
            && (r.Ok? ==> r.value.0 == MarkAll(table, Elements(ids), mark))
  {
    if ids == [] {
      assert MarkAll(table, Elements(ids), mark) == table;
    } else {
      var front, id := ids[..|ids| - 1], ids[|ids| - 1];
      assert ids == front + [id];
      RereadingAcceptsExactlyDistinct(table, front, finds, mark);
      DistinctAppend(front, id);
      MarkAllThenOne(table, front, id, mark);
      assert id in front <==> id in Elements(front);
    }
  }
}
