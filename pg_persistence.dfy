/** The data-access class of the workout app. Its fields stand for the two
    database tables, each statement it runs is applied to them, and each
    method's result is the statement's `rowCount > 0` or the rows the
    statement returned. */
module Persistence {
  import opened Wrappers
  import opened Schema
  import opened Collation
  import opened Ordering
  import opened Tables
  import opened Completion
  import opened Errors

  class PgPersistence {
    /** The rows of `workoutlists`, in table order. */
    var workoutLists: seq<ListRow>
    /** The rows of `workouts`, in table order. */
    var workouts: seq<Workout>
    /** The next value of the SERIAL sequence behind `workoutlists.id`. */
    var nextListId: int
    /** The next value of the SERIAL sequence behind `workouts.id`. */
    var nextWorkoutId: int

    /** The tables and sequences as the schema keeps them. */
    ghost predicate Valid()
      reads this
    {
      SchemaHolds(workoutLists, workouts, nextListId, nextWorkoutId)
    }

    /** `new PgPersistence(session)`: a store over the database as it
        stands. The class keeps no state of its own and drops the session,
        so the object is the tables and sequences it works on. */
    constructor(lists: seq<ListRow>, ws: seq<Workout>, listSeq: int, workoutSeq: int)
      requires SchemaHolds(lists, ws, listSeq, workoutSeq)
      ensures Valid()
      ensures workoutLists == lists && workouts == ws
      ensures nextListId == listSeq && nextWorkoutId == workoutSeq
    {
      workoutLists, workouts := lists, ws;
      nextListId, nextWorkoutId := listSeq, workoutSeq;
    }

    /** `sortedWorkoutLists`: every list once, each with the workouts that
        belong to it; undone lists before done lists, and lists with the
        same status in lower(title) order. */
    method SortedWorkoutLists() returns (result: seq<WorkoutList>)
      ensures multiset(Rows(result)) == multiset(workoutLists)
      ensures forall i :: 0 <= i < |result| ==> result[i].workouts == SelectWorkouts(workouts, InList(result[i].id))
      ensures forall i, j :: 0 <= i < j < |result| && IsDoneWorkoutList(result[i]) ==> IsDoneWorkoutList(result[j])
      ensures forall i, j :: 0 <= i < j < |result| && IsDoneWorkoutList(result[i]) == IsDoneWorkoutList(result[j]) ==>
        TitleLe(result[i].title, result[j].title)
    {
      // SELECT * FROM workoutlists ORDER BY lower(title) ASC
      var rows := SortBy(workoutLists, ByLowerTitle);
      var lists := seq(|rows|, i requires 0 <= i < |rows| => WorkoutList(rows[i].id, rows[i].title, []));
      for index := 0 to |lists|
        invariant |lists| == |rows|
        invariant forall k :: 0 <= k < |lists| ==> lists[k].Row() == rows[k]
        invariant forall k :: 0 <= k < index ==> lists[k].workouts == SelectWorkouts(workouts, InList(lists[k].id))
      {
        // SELECT * FROM workouts WHERE workoutlist_id = $1
        var found := SelectWorkouts(workouts, InList(lists[index].id));
        lists := lists[index := lists[index].(workouts := found)];
      }
      result := PartitionWorkoutLists(lists);
      PartitionedListsCorrect(workoutLists, workouts, rows, lists);
    }

    /** `loadWorkoutList`: the list with the given id and its workouts, or
        None when no list has that id. */
    method LoadWorkoutList(workoutListId: int) returns (result: Option<WorkoutList>)
      ensures result.None? <==> workoutListId !in ListIds(workoutLists)
      ensures result.Some? ==>
        && result.value.Row() in workoutLists
        && result.value.id == workoutListId
        && result.value.workouts == SelectWorkouts(workouts, InList(workoutListId))
    {
      // SELECT * FROM workoutlists WHERE id = $1
      var listRows := SelectLists(workoutLists, IdIs(workoutListId));
      // SELECT * FROM workouts WHERE workoutlist_id = $1
      var workoutRows := SelectWorkouts(workouts, InList(workoutListId));
      SelectListsMembers(workoutLists, IdIs(workoutListId));
      ListRowCountPositive(workoutLists, IdIs(workoutListId));
      if |listRows| == 0 {
        return None;
      }
      assert listRows[0] in listRows;
      result := Some(WorkoutList(listRows[0].id, listRows[0].title, workoutRows));
    }

    /** `sortedWorkouts`: exactly the workouts of the list, ordered by
        done (undone first), then num_sets (NULL last), then lower(title). */
    method SortedWorkouts(workoutList: WorkoutList) returns (result: seq<Workout>)
      ensures multiset(result) == multiset(SelectWorkouts(workouts, InList(workoutList.id)))
      ensures forall w :: w in result <==> w in workouts && w.workoutlistId == workoutList.id
      ensures forall i, j :: 0 <= i < j < |result| ==> WorkoutOrder(result[i], result[j])
    {
      // SELECT * FROM workouts WHERE workoutlist_id = $1 ORDER BY done ASC, num_sets, lower(title) ASC
      var rows := SelectWorkouts(workouts, InList(workoutList.id));
      result := SortBy(rows, WorkoutOrder);

      SelectWorkoutsMembers(workouts, InList(workoutList.id));
      forall w
        ensures w in result <==> w in rows
      {
        assert w in result <==> w in multiset(result);
        assert w in rows <==> w in multiset(rows);
      }
      WorkoutOrderIsTotalPreorder();
      SortBySorted(rows, WorkoutOrder);
      SortedOrdered(result, WorkoutOrder);
    }

    /** `loadWorkout`: the workout with both ids, or None when there is none. */
    method LoadWorkout(workoutListId: int, workoutId: int) returns (result: Option<Workout>)
      requires Valid()
      ensures result.Some? <==> exists w :: w in workouts && w.workoutlistId == workoutListId && w.id == workoutId
      ensures result.Some? ==> forall w :: w in workouts && w.workoutlistId == workoutListId && w.id == workoutId <==> w == result.value
    {
      // SELECT * FROM workouts WHERE workoutlist_id = $1 AND id = $2
      var rows := SelectWorkouts(workouts, InListWithId(workoutListId, workoutId));
      SelectWorkoutsMembers(workouts, InListWithId(workoutListId, workoutId));
      RowCountPositive(workouts, InListWithId(workoutListId, workoutId));
      if |rows| == 0 {
        return None;
      }
      assert rows[0] in rows;
      result := Some(rows[0]);
      forall w | w in workouts && w.workoutlistId == workoutListId && w.id == workoutId
        ensures w == result.value
      {
        SameIdSameWorkout(workouts, w, rows[0]);
      }
    }

    /** `toggleDoneWorkout`: flips `done` on the workout with both ids and
        on no other row; true exactly when that workout exists. */
    method ToggleDoneWorkout(workoutListId: int, workoutId: int) returns (toggled: bool)
      requires Valid()
      modifies this`workouts
      ensures Valid()
      ensures workouts == UpdateWorkouts(old(workouts), InListWithId(workoutListId, workoutId), FlipDone)
      ensures toggled <==> exists w :: w in old(workouts) && w.workoutlistId == workoutListId && w.id == workoutId
    {
      // UPDATE workouts SET done = NOT done WHERE workoutlist_id = $1 AND id = $2
      var rowCount := |SelectWorkouts(workouts, InListWithId(workoutListId, workoutId))|;
      RowCountPositive(workouts, InListWithId(workoutListId, workoutId));
      UpdateWorkoutsKeepsKeys(workouts, InListWithId(workoutListId, workoutId), FlipDone);
      KeysKept(workouts, UpdateWorkouts(workouts, InListWithId(workoutListId, workoutId), FlipDone), ListIds(workoutLists), nextWorkoutId);
      workouts := UpdateWorkouts(workouts, InListWithId(workoutListId, workoutId), FlipDone);
      toggled := rowCount > 0;
    }

    /** `deleteWorkout`: removes the workout with both ids and no other row;
        true exactly when it existed. */
    method DeleteWorkout(workoutListId: int, workoutId: int) returns (deleted: bool)
      requires Valid()
      modifies this`workouts
      ensures Valid()
      ensures workouts == SelectWorkouts(old(workouts), NotWorkout(InListWithId(workoutListId, workoutId)))
      ensures deleted <==> exists w :: w in old(workouts) && w.workoutlistId == workoutListId && w.id == workoutId
    {
      // DELETE FROM workouts WHERE workoutlist_id = $1 AND id = $2
      var rowCount := |SelectWorkouts(workouts, InListWithId(workoutListId, workoutId))|;
      RowCountPositive(workouts, InListWithId(workoutListId, workoutId));
      SelectWorkoutsMembers(workouts, NotWorkout(InListWithId(workoutListId, workoutId)));
      SelectWorkoutsKeepsUniqueness(workouts, NotWorkout(InListWithId(workoutListId, workoutId)));
      workouts := SelectWorkouts(workouts, NotWorkout(InListWithId(workoutListId, workoutId)));
      deleted := rowCount > 0;
    }

    /** `completeAllWorkouts`: afterwards every workout of the list is done
        and no other list's workouts have changed; true exactly when the
        list had an undone workout, so false for a missing, empty or
        already complete list. */
    method CompleteAllWorkouts(workoutListId: int) returns (completed: bool)
      requires Valid()
      modifies this`workouts
      ensures Valid()
      ensures workouts == UpdateWorkouts(old(workouts), UndoneInList(workoutListId), MarkDone)
      ensures completed <==> AnyUndone(SelectWorkouts(old(workouts), InList(workoutListId)))
      ensures AllDone(SelectWorkouts(workouts, InList(workoutListId)))
      ensures forall m :: m != workoutListId ==> SelectWorkouts(workouts, InList(m)) == SelectWorkouts(old(workouts), InList(m))
    {
      // UPDATE workouts SET done = TRUE WHERE workoutlist_id = $1 AND NOT done
      var rowCount := |SelectWorkouts(workouts, UndoneInList(workoutListId))|;
      UndoneRowsIffHasUndone(workouts, workoutListId);
      UpdateWorkoutsKeepsKeys(workouts, UndoneInList(workoutListId), MarkDone);
      KeysKept(workouts, UpdateWorkouts(workouts, UndoneInList(workoutListId), MarkDone), ListIds(workoutLists), nextWorkoutId);
      MarkDoneEffect(workouts, workoutListId);
      workouts := UpdateWorkouts(workouts, UndoneInList(workoutListId), MarkDone);
      completed := rowCount > 0;

      var mine := SelectWorkouts(workouts, InList(workoutListId));
      SelectWorkoutsMembers(workouts, InList(workoutListId));
      assert forall i :: 0 <= i < |mine| ==> mine[i] in mine;
      AllDoneMeans(mine);
    }

    /** `createWorkout`: adds one undone workout with a fresh id to an
        existing list and returns true; for a list id with no list the
        foreign key rejects the INSERT and the error propagates. */
    method CreateWorkout(workoutListId: int, title: string, numSets: Option<int>, numReps: Option<int>,
                         numTime: Option<Numeric>, numWeight: Option<Numeric>) returns (result: Result<bool, DbError>)
      requires Valid()
      modifies this`workouts, this`nextWorkoutId
      ensures Valid()
      ensures workoutListId !in ListIds(workoutLists) ==>
        result == Failure(MissingListError) && workouts == old(workouts) && nextWorkoutId == old(nextWorkoutId)
      ensures workoutListId in ListIds(workoutLists) ==>
        && result == Success(true)
        && (forall w :: w in old(workouts) ==> w.id != old(nextWorkoutId))
        && workouts == old(workouts) + [Workout(old(nextWorkoutId), title, workoutListId, false, numSets, numReps, numTime, numWeight)]
        && nextWorkoutId == old(nextWorkoutId) + 1
    {
      // INSERT INTO workouts (title, workoutlist_id, num_sets, num_reps, num_time, num_weight) VALUES (...)
      if workoutListId !in ListIds(workoutLists) {
        return Failure(MissingListError);
      }
      var row := Workout(nextWorkoutId, title, workoutListId, false, numSets, numReps, numTime, numWeight);
      workouts := workouts + [row];
      nextWorkoutId := nextWorkoutId + 1;
      var rowCount := 1;
      result := Success(rowCount > 0);
    }

    /** `deleteWorkoutList`: removes the list and, by the cascade, every
        workout of it, and nothing else; true exactly when the list existed. */
    method DeleteWorkoutList(workoutListId: int) returns (deleted: bool)
      requires Valid()
      modifies this`workoutLists, this`workouts
      ensures Valid()
      ensures workoutLists == SelectLists(old(workoutLists), NotList(IdIs(workoutListId)))
      ensures workouts == SelectWorkouts(old(workouts), NotWorkout(InList(workoutListId)))
      ensures deleted <==> workoutListId in ListIds(old(workoutLists))
      ensures workoutListId !in ListIds(workoutLists)
      ensures forall w :: w in workouts ==> w.workoutlistId != workoutListId
    {
      // DELETE FROM workoutlists WHERE id = $1
      var rowCount := |SelectLists(workoutLists, IdIs(workoutListId))|;
      ListRowCountPositive(workoutLists, IdIs(workoutListId));
      SelectListsMembers(workoutLists, NotList(IdIs(workoutListId)));
      SelectListsKeepsUniqueness(workoutLists, NotList(IdIs(workoutListId)));
      SelectWorkoutsMembers(workouts, NotWorkout(InList(workoutListId)));
      SelectWorkoutsKeepsUniqueness(workouts, NotWorkout(InList(workoutListId)));
      ghost var before := workoutLists;
      workoutLists := SelectLists(workoutLists, NotList(IdIs(workoutListId)));
      // ON DELETE CASCADE
      workouts := SelectWorkouts(workouts, NotWorkout(InList(workoutListId)));
      deleted := rowCount > 0;

      forall w | w in workouts
        ensures w.workoutlistId in ListIds(workoutLists)
      {
        assert WorkoutHolds(NotWorkout(InList(workoutListId)), w);
        assert !WorkoutHolds(InList(workoutListId), w);
        var l :| l in before && l.id == w.workoutlistId;
        assert ListHolds(NotList(IdIs(workoutListId)), l);
      }
    }

    /** `setTodoListTitle`: renames the list with the given id; true when it
        exists, false when it does not. A title another list already holds
        is rejected by the unique constraint and the error propagates. */
    method SetTodoListTitle(todoListId: int, title: string) returns (result: Result<bool, DbError>)
      requires Valid()
      modifies this`workoutLists
      ensures Valid()
      ensures todoListId !in ListIds(old(workoutLists)) ==>
        result == Success(false) && workoutLists == old(workoutLists)
      ensures todoListId in ListIds(old(workoutLists)) && TitleHeldByOther(old(workoutLists), todoListId, title) ==>
        result == Failure(TitleTakenError) && workoutLists == old(workoutLists)
      ensures todoListId in ListIds(old(workoutLists)) && !TitleHeldByOther(old(workoutLists), todoListId, title) ==>
        result == Success(true) && workoutLists == UpdateTitles(old(workoutLists), IdIs(todoListId), title)
    {
      // UPDATE workoutlists SET title = $1 WHERE id = $2
      var rowCount := |SelectLists(workoutLists, IdIs(todoListId))|;
      ListRowCountPositive(workoutLists, IdIs(todoListId));
      if rowCount > 0 && TitleHeldByOther(workoutLists, todoListId, title) {
        return Failure(TitleTakenError);
      }
      if rowCount > 0 {
        RetitleKeepsUniqueness(workoutLists, todoListId, title);
        UpdateTitlesAt(workoutLists, IdIs(todoListId), title);
        workoutLists := UpdateTitles(workoutLists, IdIs(todoListId), title);
        forall l | l in workoutLists
          ensures l.id < nextListId
        {
          var i :| 0 <= i < |workoutLists| && workoutLists[i] == l;
          assert old(workoutLists)[i] in old(workoutLists);
        }
      } else {
        UpdateTitlesUnmatched(workoutLists, todoListId, title);
      }
      result := Success(rowCount > 0);
    }

    /** `existsWorkoutListTitle`: whether some list has exactly this title
        (case-sensitive). */
    method ExistsWorkoutListTitle(title: string) returns (found: bool)
      ensures found <==> TitleTaken(workoutLists, title)
    {
      // SELECT null FROM workoutlists WHERE title = $1
      var rowCount := |SelectLists(workoutLists, TitleIs(title))|;
      ListRowCountPositive(workoutLists, TitleIs(title));
      found := rowCount > 0;
    }

    /** The INSERT of `createWorkoutList` as the server runs it: `outage`
        is a failure that happens whatever the tables hold (a lost
        connection, say); otherwise a title that is already taken violates
        the unique constraint, and a new title is inserted with the next
        id. */
    method InsertWorkoutList(title: string, outage: Option<DbError>) returns (result: Result<nat, DbError>)
      requires Valid()
      modifies this`workoutLists, this`nextListId
      ensures Valid()
      ensures outage.Some? ==>
        result == Failure(outage.value) && workoutLists == old(workoutLists) && nextListId == old(nextListId)
      ensures outage.None? && TitleTaken(old(workoutLists), title) ==>
        result == Failure(TitleTakenError) && workoutLists == old(workoutLists) && nextListId == old(nextListId)
      ensures outage.None? && !TitleTaken(old(workoutLists), title) ==>
        && result == Success(1)
        && old(nextListId) !in ListIds(old(workoutLists))
        && workoutLists == old(workoutLists) + [ListRow(old(nextListId), title)]
        && nextListId == old(nextListId) + 1
    {
      if outage.Some? {
        return Failure(outage.value);
      }
      if TitleTaken(workoutLists, title) {
        return Failure(TitleTakenError);
      }
      workoutLists := workoutLists + [ListRow(nextListId, title)];
      nextListId := nextListId + 1;
      result := Success(1);
    }

    /** `createWorkoutList`: true when a list with the title was added;
        false, with the tables unchanged, when the INSERT failed with a
        unique-constraint violation (in particular when the title is
        taken); any other failure propagates. */
    method CreateWorkoutList(title: string, outage: Option<DbError>) returns (result: Result<bool, DbError>)
      requires Valid()
      modifies this`workoutLists, this`nextListId
      ensures Valid()
      ensures result.Success? && result.value ==>
        outage.None? && !TitleTaken(old(workoutLists), title)
        && workoutLists == old(workoutLists) + [ListRow(old(nextListId), title)]
      ensures !(result.Success? && result.value) ==> workoutLists == old(workoutLists)
      ensures nextListId == if result == Success(true) then old(nextListId) + 1 else old(nextListId)
      ensures outage.None? ==> result == Success(!TitleTaken(old(workoutLists), title))
      ensures outage.Some? ==>
        result == if IsUniqueConstraintViolation(outage.value) then Success(false) else Failure(outage.value)
    {
      var inserted := InsertWorkoutList(title, outage);
      match inserted
      case Success(rowCount) =>
        result := Success(rowCount > 0);
      case Failure(error) =>
        TitleTakenIsUniqueViolation();
        if IsUniqueConstraintViolation(error) {
          result := Success(false);
        } else {
          result := Failure(error);
        }
    }
  }

  /** What the schema guarantees of the tables: unique ids, unique list
      titles, every workout's list exists (the foreign key whose ON DELETE
      CASCADE removes a list's workouts), and both sequences are ahead of
      every id they have handed out. */
  ghost predicate SchemaHolds(lists: seq<ListRow>, ws: seq<Workout>, nextListId: int, nextWorkoutId: int)
  {
    && UniqueListIds(lists)
    && UniqueTitles(lists)
    && UniqueWorkoutIds(ws)
    && (forall w :: w in ws ==> w.workoutlistId in ListIds(lists))
    && (forall l :: l in lists ==> l.id < nextListId)
    && (forall w :: w in ws ==> w.id < nextWorkoutId)
  }

  /** The lists read in lower(title) order with their workouts attached,
      then partitioned, hold every table row once, carry their own
      workouts, and are in the order `sortedWorkoutLists` promises. */
  lemma PartitionedListsCorrect(table: seq<ListRow>, ws: seq<Workout>, rows: seq<ListRow>, lists: seq<WorkoutList>)
    requires rows == SortBy(table, ByLowerTitle)
    requires |lists| == |rows| && forall k :: 0 <= k < |lists| ==> lists[k].Row() == rows[k]
    requires forall k :: 0 <= k < |lists| ==> lists[k].workouts == SelectWorkouts(ws, InList(lists[k].id))
    ensures multiset(Rows(Partition(lists))) == multiset(table)
    ensures var r := Partition(lists);
      forall i :: 0 <= i < |r| ==> r[i].workouts == SelectWorkouts(ws, InList(r[i].id))
    ensures var r := Partition(lists);
      forall i, j :: 0 <= i < j < |r| && IsDoneWorkoutList(r[i]) ==> IsDoneWorkoutList(r[j])
    ensures var r := Partition(lists);
      forall i, j :: 0 <= i < j < |r| && IsDoneWorkoutList(r[i]) == IsDoneWorkoutList(r[j]) ==> TitleLe(r[i].title, r[j].title)
  {
    var r := Partition(lists);
    assert Rows(lists) == rows;
    RowsOfGroups(lists);
    PartitionPermutes(lists);
    forall i | 0 <= i < |r|
      ensures r[i].workouts == SelectWorkouts(ws, InList(r[i].id))
    {
      assert r[i] in multiset(lists);
      var k :| 0 <= k < |lists| && lists[k] == r[i];
    }
    PartitionUndoneFirst(lists);
    ByLowerTitleIsTotalPreorder();
    SortBySorted(table, ByLowerTitle);
    SortedOrdered(rows, ByLowerTitle);
    PartitionKeepsTitleOrder(lists);
  }

  /** Some list has exactly this title. */
  predicate TitleTaken(lists: seq<ListRow>, title: string)
  {
    exists l :: l in lists && l.title == title
  }

  /** Rewriting columns other than the keys keeps the keys unique, keeps
      every workout's list, and keeps every id below the sequence. */
  lemma KeysKept(ws: seq<Workout>, ws': seq<Workout>, listIds: set<int>, bound: int)
    requires SameKeys(ws, ws') && UniqueWorkoutIds(ws)
    requires forall w :: w in ws ==> w.workoutlistId in listIds && w.id < bound
    ensures UniqueWorkoutIds(ws')
    ensures forall w :: w in ws' ==> w.workoutlistId in listIds && w.id < bound
  {
  }

  /** An UPDATE whose WHERE clause matches no row leaves the table as it was. */
  lemma UpdateTitlesUnmatched(lists: seq<ListRow>, id: int, title: string)
    requires id !in ListIds(lists)
    ensures UpdateTitles(lists, IdIs(id), title) == lists
  {
  }
}
