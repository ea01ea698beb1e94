/** The SQL statements of the persistence class as functions over table
    contents. A WHERE clause is a `ListCond` or `WorkoutCond`; SELECT keeps
    the rows it holds for, in table order; DELETE keeps the rows it does not
    hold for; UPDATE rewrites the rows it holds for and keeps the rest. The
    number of rows a statement matched is its `rowCount`. */
module Tables {
  import opened Wrappers
  import opened Schema
  import opened Collation
  import opened Ordering

  /** WHERE clauses over `workoutlists`. */
  datatype ListCond =
    | IdIs(id: int)                 // id = $1
    | TitleIs(title: string)        // title = $1
    | NotList(cond: ListCond)       // NOT (...)

  /** WHERE clauses over `workouts`. */
  datatype WorkoutCond =
    | InList(listId: int)                 // workoutlist_id = $1
    | InListWithId(listId: int, id: int)  // workoutlist_id = $1 AND id = $2
    | UndoneInList(listId: int)           // workoutlist_id = $1 AND NOT done
    | NotWorkout(cond: WorkoutCond)       // NOT (...)

  predicate ListHolds(c: ListCond, l: ListRow)
  {
    match c
    case IdIs(id) => l.id == id
    case TitleIs(t) => l.title == t
    case NotList(c') => !ListHolds(c', l)
  }

  predicate WorkoutHolds(c: WorkoutCond, w: Workout)
  {
    match c
    case InList(listId) => w.workoutlistId == listId
    case InListWithId(listId, id) => w.workoutlistId == listId && w.id == id
    case UndoneInList(listId) => w.workoutlistId == listId && !w.done
    case NotWorkout(c') => !WorkoutHolds(c', w)
  }

  /** SELECT * FROM workoutlists WHERE c */
  function SelectLists(lists: seq<ListRow>, c: ListCond): seq<ListRow>
  {
    if lists == [] then []
    else (if ListHolds(c, lists[0]) then [lists[0]] else []) + SelectLists(lists[1..], c)
  }

  /** SELECT * FROM workouts WHERE c */
  function SelectWorkouts(ws: seq<Workout>, c: WorkoutCond): seq<Workout>
  {
    if ws == [] then []
    else (if WorkoutHolds(c, ws[0]) then [ws[0]] else []) + SelectWorkouts(ws[1..], c)
  }

  /** SET clauses over `workouts`. */
  datatype WorkoutSet =
    | FlipDone   // done = NOT done
    | MarkDone   // done = TRUE

  function Assign(s: WorkoutSet, w: Workout): Workout
  {
    match s
    case FlipDone => w.(done := !w.done)
    case MarkDone => w.(done := true)
  }

  /** UPDATE workouts SET s WHERE c */
  function UpdateWorkouts(ws: seq<Workout>, c: WorkoutCond, s: WorkoutSet): seq<Workout>
  {
    if ws == [] then []
    else [if WorkoutHolds(c, ws[0]) then Assign(s, ws[0]) else ws[0]] + UpdateWorkouts(ws[1..], c, s)
  }

  /** UPDATE workoutlists SET title = t WHERE c */
  function UpdateTitles(lists: seq<ListRow>, c: ListCond, t: string): seq<ListRow>
  {
    if lists == [] then []
    else [if ListHolds(c, lists[0]) then lists[0].(title := t) else lists[0]] + UpdateTitles(lists[1..], c, t)
  }

  /** ORDER BY lower(title) ASC */
  predicate ByLowerTitle(a: ListRow, b: ListRow)
  {
    TitleLe(a.title, b.title)
  }

  /** `a` strictly before `b` under `num_sets ASC`, where NULL sorts last. */
  predicate SetsBefore(a: Option<int>, b: Option<int>)
  {
    match a
    case None => false
    case Some(x) => b.None? || x < b.value
  }

  /** ORDER BY done ASC, num_sets, lower(title) ASC */
  predicate WorkoutOrder(a: Workout, b: Workout)
  {
    if a.done != b.done then !a.done
    else if a.numSets != b.numSets then SetsBefore(a.numSets, b.numSets)
    else TitleLe(a.title, b.title)
  }

  function ListIds(lists: seq<ListRow>): set<int>
  {
    set l | l in lists :: l.id
  }

  ghost predicate UniqueListIds(lists: seq<ListRow>)
  {
    forall i, j :: 0 <= i < j < |lists| ==> lists[i].id != lists[j].id
  }

  /** The unique constraint on `workoutlists.title`. */
  ghost predicate UniqueTitles(lists: seq<ListRow>)
  {
    forall i, j :: 0 <= i < j < |lists| ==> lists[i].title != lists[j].title
  }

  ghost predicate UniqueWorkoutIds(ws: seq<Workout>)
  {
    forall i, j :: 0 <= i < j < |ws| ==> ws[i].id != ws[j].id
  }

  // ---------------------------------------------------------------------
  // What each statement does to the rows

  /** SELECT returns exactly the rows the WHERE clause holds for. */
  lemma {:induction false} SelectListsMembers(lists: seq<ListRow>, c: ListCond)
    ensures forall l :: l in SelectLists(lists, c) <==> l in lists && ListHolds(c, l)
  {
    if lists != [] {
      SelectListsMembers(lists[1..], c);
      assert lists == [lists[0]] + lists[1..];
    }
  }

  /** SELECT returns exactly the rows the WHERE clause holds for. */
  lemma {:induction false} SelectWorkoutsMembers(ws: seq<Workout>, c: WorkoutCond)
    ensures forall w :: w in SelectWorkouts(ws, c) <==> w in ws && WorkoutHolds(c, w)
  {
    if ws != [] {
      SelectWorkoutsMembers(ws[1..], c);
      assert ws == [ws[0]] + ws[1..];
    }
  }

  /** A positive rowCount means some row matched. */
  lemma RowCountPositive(ws: seq<Workout>, c: WorkoutCond)
    ensures |SelectWorkouts(ws, c)| > 0 <==> exists w :: w in ws && WorkoutHolds(c, w)
  {
    SelectWorkoutsMembers(ws, c);
    if |SelectWorkouts(ws, c)| > 0 {
      assert SelectWorkouts(ws, c)[0] in SelectWorkouts(ws, c);
    }
  }

  /** The rows a DELETE removes are exactly those a SELECT with the same
      WHERE clause returns: together they are the whole table. */
  lemma {:induction false} SelectWorkoutsSplit(ws: seq<Workout>, c: WorkoutCond)
    ensures multiset(SelectWorkouts(ws, c)) + multiset(SelectWorkouts(ws, NotWorkout(c))) == multiset(ws)
  {
    if ws != [] {
      SelectWorkoutsSplit(ws[1..], c);
      assert ws == [ws[0]] + ws[1..];
    }
  }

  lemma {:induction false} SelectListsKeepsUniqueness(lists: seq<ListRow>, c: ListCond)
    requires UniqueListIds(lists) && UniqueTitles(lists)
    ensures UniqueListIds(SelectLists(lists, c)) && UniqueTitles(SelectLists(lists, c))
  {
    if lists != [] {
      SelectListsKeepsUniqueness(lists[1..], c);
      SelectListsMembers(lists[1..], c);
      var rest := SelectLists(lists[1..], c);
      forall k | 0 <= k < |rest|
        ensures rest[k].id != lists[0].id && rest[k].title != lists[0].title
      {
        assert rest[k] in lists[1..];
      }
    }
  }

  lemma {:induction false} SelectWorkoutsKeepsUniqueness(ws: seq<Workout>, c: WorkoutCond)
    requires UniqueWorkoutIds(ws)
    ensures UniqueWorkoutIds(SelectWorkouts(ws, c))
  {
    if ws != [] {
      SelectWorkoutsKeepsUniqueness(ws[1..], c);
      SelectWorkoutsMembers(ws[1..], c);
      var rest := SelectWorkouts(ws[1..], c);
      forall k | 0 <= k < |rest|
        ensures rest[k].id != ws[0].id
      {
        assert rest[k] in ws[1..];
      }
    }
  }

  /** UPDATE rewrites each matching row in place and leaves every other
      row as it was. */
  lemma {:induction false} UpdateWorkoutsAt(ws: seq<Workout>, c: WorkoutCond, s: WorkoutSet)
    ensures |UpdateWorkouts(ws, c, s)| == |ws|
    ensures forall i :: 0 <= i < |ws| ==>
      UpdateWorkouts(ws, c, s)[i] == if WorkoutHolds(c, ws[i]) then Assign(s, ws[i]) else ws[i]
  {
    if ws != [] {
      UpdateWorkoutsAt(ws[1..], c, s);
    }
  }

  /** UPDATE workoutlists SET title rewrites the title of each matching row
      and leaves every other row as it was. */
  lemma {:induction false} UpdateTitlesAt(lists: seq<ListRow>, c: ListCond, t: string)
    ensures |UpdateTitles(lists, c, t)| == |lists|
    ensures forall i :: 0 <= i < |lists| ==>
      UpdateTitles(lists, c, t)[i] == if ListHolds(c, lists[i]) then lists[i].(title := t) else lists[i]
  {
    if lists != [] {
      UpdateTitlesAt(lists[1..], c, t);
    }
  }

  /** `done = NOT done` applied twice to the same row restores the table. */
  lemma {:induction false} FlipDoneTwice(ws: seq<Workout>, listId: int, id: int)
    ensures UpdateWorkouts(UpdateWorkouts(ws, InListWithId(listId, id), FlipDone), InListWithId(listId, id), FlipDone) == ws
  {
    if ws != [] {
      FlipDoneTwice(ws[1..], listId, id);
    }
  }

  /** Setting `done = TRUE` on the undone rows of a list leaves no undone
      row in that list and changes no row of any other list. */
  lemma {:induction false} MarkDoneEffect(ws: seq<Workout>, listId: int)
    ensures forall w :: w in UpdateWorkouts(ws, UndoneInList(listId), MarkDone) && w.workoutlistId == listId ==> w.done
    ensures forall m :: m != listId ==>
      SelectWorkouts(UpdateWorkouts(ws, UndoneInList(listId), MarkDone), InList(m)) == SelectWorkouts(ws, InList(m))
  {
    if ws != [] {
      MarkDoneEffect(ws[1..], listId);
    }
  }

  /** A positive rowCount means some row matched. */
  lemma ListRowCountPositive(lists: seq<ListRow>, c: ListCond)
    ensures |SelectLists(lists, c)| > 0 <==> exists l :: l in lists && ListHolds(c, l)
  {
    SelectListsMembers(lists, c);
    if |SelectLists(lists, c)| > 0 {
      assert SelectLists(lists, c)[0] in SelectLists(lists, c);
    }
  }

  /** Two rows with the same key change only in the columns an UPDATE sets. */
  ghost predicate SameKeys(ws: seq<Workout>, ws': seq<Workout>)
  {
    |ws| == |ws'| && forall i :: 0 <= i < |ws| ==> ws'[i].id == ws[i].id && ws'[i].workoutlistId == ws[i].workoutlistId
  }

  lemma UpdateWorkoutsKeepsKeys(ws: seq<Workout>, c: WorkoutCond, s: WorkoutSet)
    ensures SameKeys(ws, UpdateWorkouts(ws, c, s))
  {
  }

  /** Some row other than the one with id `id` has title `title`. */
  predicate TitleHeldByOther(lists: seq<ListRow>, id: int, title: string)
  {
    exists l :: l in lists && l.title == title && l.id != id
  }

  /** Renaming a list to a title no other list holds keeps ids and titles
      unique and keeps the set of list ids. */
  lemma {:induction false} RetitleKeepsUniqueness(lists: seq<ListRow>, id: int, title: string)
    requires UniqueListIds(lists) && UniqueTitles(lists)
    requires !TitleHeldByOther(lists, id, title)
    ensures UniqueListIds(UpdateTitles(lists, IdIs(id), title))
    ensures UniqueTitles(UpdateTitles(lists, IdIs(id), title))
    ensures ListIds(UpdateTitles(lists, IdIs(id), title)) == ListIds(lists)
  {
    var r := UpdateTitles(lists, IdIs(id), title);
    UpdateTitlesAt(lists, IdIs(id), title);
    forall i, j | 0 <= i < j < |r|
      ensures r[i].title != r[j].title
    {
      if lists[i].id == id {
        assert lists[j] in lists;
      } else if lists[j].id == id {
        assert lists[i] in lists;
      }
    }
    forall x | x in ListIds(lists)
      ensures x in ListIds(r)
    {
      var l :| l in lists && l.id == x;
      var i :| 0 <= i < |lists| && lists[i] == l;
      assert r[i] in r;
    }
    forall x | x in ListIds(r)
      ensures x in ListIds(lists)
    {
      var l :| l in r && l.id == x;
      var i :| 0 <= i < |r| && r[i] == l;
      assert lists[i] in lists;
    }
  }

  /** With unique ids, a row is determined by its id. */
  lemma SameIdSameWorkout(ws: seq<Workout>, a: Workout, b: Workout)
    requires UniqueWorkoutIds(ws) && a in ws && b in ws && a.id == b.id
    ensures a == b
  {
  }

  // ---------------------------------------------------------------------
  // The two sort orders are total preorders

  lemma ByLowerTitleIsTotalPreorder()
    ensures Total(ByLowerTitle) && Transitive(ByLowerTitle)
  {
    forall a: ListRow, b: ListRow
      ensures ByLowerTitle(a, b) || ByLowerTitle(b, a)
    {
      TitleLeTotal(a.title, b.title);
    }
    forall a: ListRow, b: ListRow, c: ListRow | ByLowerTitle(a, b) && ByLowerTitle(b, c)
      ensures ByLowerTitle(a, c)
    {
      TitleLeTransitive(a.title, b.title, c.title);
    }
  }

  lemma WorkoutOrderIsTotalPreorder()
    ensures Total(WorkoutOrder) && Transitive(WorkoutOrder)
  {
    forall a: Workout, b: Workout
      ensures WorkoutOrder(a, b) || WorkoutOrder(b, a)
    {
      TitleLeTotal(a.title, b.title);
    }
    forall a: Workout, b: Workout, c: Workout | WorkoutOrder(a, b) && WorkoutOrder(b, c)
      ensures WorkoutOrder(a, c)
    {
      if a.done == b.done == c.done && a.numSets == b.numSets == c.numSets {
        TitleLeTransitive(a.title, b.title, c.title);
      }
    }
  }
}
