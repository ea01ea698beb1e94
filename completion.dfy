/** When a workout list counts as done, and the partition of lists into
    undone ones followed by done ones. */
module Completion {
  import opened Schema
  import opened Tables
  import Collation
  import opened Ordering

  /** `workouts.every(workout => workout.done)` */
  predicate AllDone(ws: seq<Workout>)
  {
    ws == [] || (ws[0].done && AllDone(ws[1..]))
  }

  /** `workouts.some(workout => !workout.done)` */
  predicate AnyUndone(ws: seq<Workout>)
  {
    ws != [] && (!ws[0].done || AnyUndone(ws[1..]))
  }

  lemma {:induction false} AllDoneMeans(ws: seq<Workout>)
    ensures AllDone(ws) <==> forall i :: 0 <= i < |ws| ==> ws[i].done
  {
    if ws != [] {
      AllDoneMeans(ws[1..]);
      assert forall i :: 1 <= i < |ws| ==> ws[i] == ws[1..][i - 1];
    }
  }

  lemma {:induction false} AnyUndoneMeans(ws: seq<Workout>)
    ensures AnyUndone(ws) <==> exists i :: 0 <= i < |ws| && !ws[i].done
  {
    if ws != [] {
      AnyUndoneMeans(ws[1..]);
      assert forall i :: 1 <= i < |ws| ==> ws[i] == ws[1..][i - 1];
    }
  }

  /** `every(done)` holds exactly when `some(!done)` does not. */
  lemma {:induction false} AllDoneIffNoneUndone(ws: seq<Workout>)
    ensures AllDone(ws) <==> !AnyUndone(ws)
  {
    if ws != [] {
      AllDoneIffNoneUndone(ws[1..]);
    }
  }

  /** `isDoneWorkoutList`: the list has workouts and all of them are done;
      a list without workouts is never done. */
  predicate IsDoneWorkoutList(workoutList: WorkoutList)
    ensures IsDoneWorkoutList(workoutList) <==>
      |workoutList.workouts| > 0 && forall i :: 0 <= i < |workoutList.workouts| ==> workoutList.workouts[i].done
  {
    AllDoneMeans(workoutList.workouts);
    |workoutList.workouts| > 0 && AllDone(workoutList.workouts)
  }

  /** `hasUndoneWorkouts`: at least one workout of the list is not done. */
  predicate HasUndoneWorkouts(workoutList: WorkoutList)
    ensures HasUndoneWorkouts(workoutList) <==>
      exists i :: 0 <= i < |workoutList.workouts| && !workoutList.workouts[i].done
  {
    AnyUndoneMeans(workoutList.workouts);
    AnyUndone(workoutList.workouts)
  }

  /** For a list with workouts, having an undone workout is the same as
      not being done. */
  lemma HasUndoneIffNotDone(workoutList: WorkoutList)
    requires |workoutList.workouts| > 0
    ensures HasUndoneWorkouts(workoutList) <==> !IsDoneWorkoutList(workoutList)
  {
  }

  /** The undone rows of a list in the table are there exactly when the
      list read from the table has undone workouts. */
  lemma {:induction false} UndoneRowsIffHasUndone(ws: seq<Workout>, listId: int)
    ensures |SelectWorkouts(ws, UndoneInList(listId))| > 0 <==> AnyUndone(SelectWorkouts(ws, InList(listId)))
  {
    if ws != [] {
      UndoneRowsIffHasUndone(ws[1..], listId);
      var rest := SelectWorkouts(ws[1..], InList(listId));
      if ws[0].workoutlistId == listId {
        assert SelectWorkouts(ws, InList(listId)) == [ws[0]] + rest;
        assert ([ws[0]] + rest)[1..] == rest;
      } else {
        assert SelectWorkouts(ws, InList(listId)) == rest;
      }
    }
  }

  /** On a list whose workouts are all done (or that has none), the
      complete-all UPDATE matches no row, so `completeAllWorkouts` reports
      false although the list may exist. */
  lemma NothingToComplete(ws: seq<Workout>, listId: int)
    requires AllDone(SelectWorkouts(ws, InList(listId)))
    ensures |SelectWorkouts(ws, UndoneInList(listId))| == 0
  {
    UndoneRowsIffHasUndone(ws, listId);
    AllDoneIffNoneUndone(SelectWorkouts(ws, InList(listId)));
  }

  // ---------------------------------------------------------------------
  // Partition by completion status

  /** The lists of `ls` whose status is `done`, in their order in `ls`. */
  function Group(ls: seq<WorkoutList>, done: bool): seq<WorkoutList>
  {
    if ls == [] then []
    else Group(ls[..|ls| - 1], done) + (if IsDoneWorkoutList(ls[|ls| - 1]) == done then [ls[|ls| - 1]] else [])
  }

  lemma {:induction false} GroupMembers(ls: seq<WorkoutList>, done: bool)
    ensures forall x :: x in Group(ls, done) <==> x in ls && IsDoneWorkoutList(x) == done
  {
    if ls != [] {
      GroupMembers(ls[..|ls| - 1], done);
      assert ls == ls[..|ls| - 1] + [ls[|ls| - 1]];
    }
  }

  lemma {:induction false} GroupAppend(a: seq<WorkoutList>, b: seq<WorkoutList>, done: bool)
    ensures Group(a + b, done) == Group(a, done) + Group(b, done)
  {
    if b != [] {
      GroupAppend(a, b[..|b| - 1], done);
      assert (a + b)[..|a + b| - 1] == a + b[..|b| - 1];
    } else {
      assert a + b == a;
    }
  }

  /** Grouping a group again by its own status keeps it; by the other
      status empties it. */
  lemma {:induction false} GroupOfGroup(ls: seq<WorkoutList>, done: bool)
    ensures Group(Group(ls, done), done) == Group(ls, done)
    ensures Group(Group(ls, done), !done) == []
  {
    if ls != [] {
      var init, last := ls[..|ls| - 1], ls[|ls| - 1];
      GroupOfGroup(init, done);
      assert ls[..|ls| - 1] == init;
      if IsDoneWorkoutList(last) == done {
        assert Group(ls, done) == Group(init, done) + [last];
        assert Group(ls, !done) == Group(init, !done);
        GroupAppend(Group(init, done), [last], done);
        GroupAppend(Group(init, done), [last], !done);
        assert Group([last], done) == [last] by { assert [last][..0] == []; }
        assert Group([last], !done) == [] by { assert [last][..0] == []; }
      } else {
        assert Group(ls, done) == Group(init, done) + [] == Group(init, done);
      }
    }
  }

  lemma {:induction false} GroupMultiset(ls: seq<WorkoutList>)
    ensures multiset(Group(ls, false)) + multiset(Group(ls, true)) == multiset(ls)
  {
    if ls != [] {
      GroupMultiset(ls[..|ls| - 1]);
      assert ls == ls[..|ls| - 1] + [ls[|ls| - 1]];
    }
  }

  /** The undone lists of `ls`, then its done lists. */
  function Partition(ls: seq<WorkoutList>): seq<WorkoutList>
  {
    Group(ls, false) + Group(ls, true)
  }

  /** `_partitionWorkoutLists`: the undone lists, then the done lists. The
      result is a permutation of the input, no done list precedes an undone
      one, and each group keeps the input's relative order. */
  method PartitionWorkoutLists(workoutLists: seq<WorkoutList>) returns (r: seq<WorkoutList>)
    ensures r == Partition(workoutLists)
    ensures multiset(r) == multiset(workoutLists)
    ensures forall i, j :: 0 <= i < j < |r| && IsDoneWorkoutList(r[i]) ==> IsDoneWorkoutList(r[j])
    ensures Group(r, false) == Group(workoutLists, false) && Group(r, true) == Group(workoutLists, true)
  {
    var undone: seq<WorkoutList> := [];
    var done: seq<WorkoutList> := [];
    for index := 0 to |workoutLists|
      invariant undone == Group(workoutLists[..index], false)
      invariant done == Group(workoutLists[..index], true)
    {
      var workoutList := workoutLists[index];
      assert workoutLists[..index + 1][..index] == workoutLists[..index];
      if IsDoneWorkoutList(workoutList) {
        done := done + [workoutList];
      } else {
        undone := undone + [workoutList];
      }
    }
    assert workoutLists[..|workoutLists|] == workoutLists;
    r := undone + done;

    PartitionPermutes(workoutLists);
    PartitionUndoneFirst(workoutLists);
    PartitionStable(workoutLists);
  }

  /** Partitioning neither adds nor drops a list. */
  lemma PartitionPermutes(ls: seq<WorkoutList>)
    ensures multiset(Partition(ls)) == multiset(ls)
  {
    GroupMultiset(ls);
  }

  /** No done list comes before an undone one. */
  lemma PartitionUndoneFirst(ls: seq<WorkoutList>)
    ensures var r := Partition(ls);
      forall i, j :: 0 <= i < j < |r| && IsDoneWorkoutList(r[i]) ==> IsDoneWorkoutList(r[j])
  {
    var undone, done := Group(ls, false), Group(ls, true);
    var r := undone + done;
    GroupMembers(ls, false);
    GroupMembers(ls, true);
    assert forall k :: 0 <= k < |undone| ==> r[k] == undone[k] && !IsDoneWorkoutList(r[k]);
    assert forall k :: |undone| <= k < |r| ==> r[k] == done[k - |undone|] && IsDoneWorkoutList(r[k]);
  }

  /** Each group keeps the relative order it had in the input. */
  lemma PartitionStable(ls: seq<WorkoutList>)
    ensures Group(Partition(ls), false) == Group(ls, false)
    ensures Group(Partition(ls), true) == Group(ls, true)
  {
    var undone, done := Group(ls, false), Group(ls, true);
    GroupAppend(undone, done, false);
    GroupAppend(undone, done, true);
    GroupOfGroup(ls, false);
    GroupOfGroup(ls, true);
  }

  /** Grouping rows read in lower(title) order keeps each group in that
      order. */
  lemma {:induction false} GroupKeepsTitleOrder(ls: seq<WorkoutList>, done: bool)
    requires Ordered(Rows(ls), ByLowerTitle)
    ensures Ordered(Rows(Group(ls, done)), ByLowerTitle)
  {
    if ls != [] {
      var init, last := ls[..|ls| - 1], ls[|ls| - 1];
      assert Rows(init) == Rows(ls)[..|ls| - 1];
      GroupKeepsTitleOrder(init, done);
      var g := Group(init, done);
      if IsDoneWorkoutList(last) == done {
        GroupMembers(init, done);
        forall i | 0 <= i < |g|
          ensures ByLowerTitle(g[i].Row(), last.Row())
        {
          assert g[i] in init;
          var k :| 0 <= k < |init| && init[k] == g[i];
          assert Rows(ls)[k] == g[i].Row() && Rows(ls)[|ls| - 1] == last.Row();
          assert ByLowerTitle(Rows(ls)[k], Rows(ls)[|ls| - 1]);
        }
        assert Group(ls, done) == g + [last];
        assert Rows(g + [last]) == Rows(g) + [last.Row()];
      } else {
        assert Group(ls, done) == g + [] == g;
      }
    }
  }

  /** After partitioning a title-ordered sequence, lists with the same
      status are still in title order. */
  lemma PartitionKeepsTitleOrder(ls: seq<WorkoutList>)
    requires Ordered(Rows(ls), ByLowerTitle)
    ensures var r := Partition(ls);
      forall i, j :: 0 <= i < j < |r| && IsDoneWorkoutList(r[i]) == IsDoneWorkoutList(r[j]) ==>
        Collation.TitleLe(r[i].title, r[j].title)
  {
    var undone, done := Group(ls, false), Group(ls, true);
    var r := undone + done;
    GroupKeepsTitleOrder(ls, false);
    GroupKeepsTitleOrder(ls, true);
    assert forall i, j :: 0 <= i < j < |undone| ==> Collation.TitleLe(undone[i].title, undone[j].title) by {
      forall i, j | 0 <= i < j < |undone|
        ensures Collation.TitleLe(undone[i].title, undone[j].title)
      {
        assert ByLowerTitle(Rows(undone)[i], Rows(undone)[j]);
      }
    }
    assert forall i, j :: 0 <= i < j < |done| ==> Collation.TitleLe(done[i].title, done[j].title) by {
      forall i, j | 0 <= i < j < |done|
        ensures Collation.TitleLe(done[i].title, done[j].title)
      {
        assert ByLowerTitle(Rows(done)[i], Rows(done)[j]);
      }
    }
    GroupMembers(ls, false);
    GroupMembers(ls, true);
    assert forall k :: 0 <= k < |undone| ==> r[k] == undone[k] && !IsDoneWorkoutList(r[k]);
    assert forall k :: |undone| <= k < |r| ==> r[k] == done[k - |undone|] && IsDoneWorkoutList(r[k]);
  }

  // ---------------------------------------------------------------------
  // The table rows behind a sequence of lists

  function Rows(ls: seq<WorkoutList>): seq<ListRow>
  {
    seq(|ls|, i requires 0 <= i < |ls| => ls[i].Row())
  }

  /** Partitioning neither adds nor drops a table row. */
  lemma RowsOfGroups(ls: seq<WorkoutList>)
    ensures multiset(Rows(Partition(ls))) == multiset(Rows(ls))
  {
    var g0, g1 := Group(ls, false), Group(ls, true);
    assert Rows(g0 + g1) == Rows(g0) + Rows(g1);
    RowsOfGroupsSplit(ls);
  }

  lemma {:induction false} RowsOfGroupsSplit(ls: seq<WorkoutList>)
    ensures multiset(Rows(Group(ls, false))) + multiset(Rows(Group(ls, true))) == multiset(Rows(ls))
  {
    if ls != [] {
      var init, last := ls[..|ls| - 1], ls[|ls| - 1];
      RowsOfGroupsSplit(init);
      var g0, g1 := Group(init, false), Group(init, true);
      assert Rows(ls) == Rows(init) + [last.Row()];
      var same, other := Group(init, IsDoneWorkoutList(last)), Group(init, !IsDoneWorkoutList(last));
      assert Group(ls, IsDoneWorkoutList(last)) == same + [last];
      assert Group(ls, !IsDoneWorkoutList(last)) == other + [] == other;
      assert Rows(same + [last]) == Rows(same) + [last.Row()];
    }
  }
}
