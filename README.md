# PgPersistence of the workout app, modelled in Dafny

The workout app keeps workout lists (`workoutlists`: `id`, `title`) and
the workouts in them (`workouts`: `id`, `title`, `workoutlist_id`, `done`,
`num_sets`, `num_reps`, `num_time`, `num_weight`) in PostgreSQL. All of its
data access goes through one class, `PgPersistence` in
`lib/pg-persistence.js`. Each method there runs one or two fixed,
parameterised SQL statements and turns the result into rows or into a
boolean (`rowCount > 0`). This project models that class.

- `Persistence.PgPersistence` is a Dafny class. Its fields are the two tables
  (`workoutLists`, `workouts`, in table order) and the two SERIAL
  sequences that hand out ids. `Valid()` states what the schema guarantees:
  - ids are unique;
  - list titles are unique;
  - every workout's list exists (the foreign key whose ON DELETE CASCADE
    removes a list's workouts);
  - both sequences are ahead of every id in the tables.
  The constructor takes tables and sequences in that state (`SchemaHolds`).
  Every mutator keeps `Valid()` and says what each table becomes. Its
  `modifies` clause names the fields it may change.
- `Tables` gives the meaning of every SQL statement the class runs. A WHERE
  clause is a value (`ListCond`, `WorkoutCond`). SELECT keeps the rows the
  clause holds for. DELETE keeps the rows it does not hold for. UPDATE
  rewrites the rows it holds for. A statement's `rowCount` is the number of
  rows it matched. The lemmas there say what each statement does to the
  rows.
- `Ordering` and `Collation` give the meaning of `ORDER BY`. `SortBy` returns a
  permutation of the rows in the order of a total preorder. `lower(title)`
  compares titles after ASCII lower-casing, code point by code point.
- `Completion` holds the pure helpers: when a list is done, when it has
  undone workouts, and the stable partition of lists into undone then done.
- `Errors` holds the unique-constraint test: a substring search for the
  server's "duplicate key value violates unique constraint" wording.

What the code does not do, and the model does not do either:
- No query filters on an owner. The class declares no constructor, so the
  session passed in at `workouts.js:42` is dropped; the model's constructor
  takes the tables the new store works on. `authenticate` (called at
  `workouts.js:358`) is not defined in `lib/pg-persistence.js`. List titles
  are unique across the whole table, not per owner.
- `existsWorkoutListTitle` is an exact, case-sensitive `title = $1` match.
  Only the sort order folds case.
- `setTodoListTitle` does not check uniqueness itself. The schema's unique
  constraint rejects a title that another list holds. The error
  propagates, and its caller at `workouts.js:334` catches it.

Where a doc comment promises more than the code does, the model follows
the code:
- `completeAllWorkouts` says in its doc comment that it returns false only
  when the list does not exist. Its UPDATE also matches nothing for an
  existing list that is empty or already complete, so it returns false
  there too. The model keeps this (`NothingToComplete`).
- `createWorkout` says in its doc comment that it resolves to false on
  failure. Its INSERT either adds one row, so it returns true, or fails,
  so it throws: for a missing list the foreign key rejects the INSERT. The
  model returns `Failure(MissingListError)` there, never `Success(false)`.
  The `if (!created)` test at `workouts.js:251` can therefore never fire.

## Model

| member | source | states |
|---|---|---|
| Persistence.PgPersistence.constructor | lib/pg-persistence.js:9 | a new store works on the given tables and sequences, which keep the schema's guarantees |
| Completion.IsDoneWorkoutList | lib/pg-persistence.js:12-17 | a list is done iff it has at least one workout and every workout is done; an empty list is never done |
| Completion.HasUndoneWorkouts | lib/pg-persistence.js:75-78 | a list has undone workouts iff some workout has `done` false |
| Completion.HasUndoneIffNotDone | lib/pg-persistence.js:75-78 | for a list with workouts, having an undone workout is the same as not being done |
| Completion.AllDoneMeans | lib/pg-persistence.js:16 | `every(workout => workout.done)` holds iff every workout is done |
| Completion.AnyUndoneMeans | lib/pg-persistence.js:77 | `some(workout => !workout.done)` holds iff some workout is not done |
| Completion.AllDoneIffNoneUndone | lib/pg-persistence.js:16 | all workouts done iff none is undone |
| Completion.PartitionWorkoutLists | lib/pg-persistence.js:41-55 | the result is the undone lists then the done lists; it is a permutation of the input; no done list precedes an undone one; each group keeps its input order |
| Completion.PartitionPermutes | lib/pg-persistence.js:41-55 | partitioning is a permutation of its input |
| Completion.PartitionUndoneFirst | lib/pg-persistence.js:54 | after partitioning, every undone list comes before every done list |
| Completion.PartitionStable | lib/pg-persistence.js:46-54 | each group of the partition is the input's lists of that status in their input order (a stable partition) |
| Completion.GroupMembers | lib/pg-persistence.js:46-52 | the `done` and `undone` arrays hold exactly the input lists of that status |
| Completion.GroupMultiset | lib/pg-persistence.js:46-52 | every input list goes to exactly one of the two arrays |
| Completion.GroupKeepsTitleOrder | lib/pg-persistence.js:46-52 | pushing in input order keeps a title-ordered input title-ordered within each array |
| Completion.PartitionKeepsTitleOrder | lib/pg-persistence.js:38 | partitioning lists read in lower(title) order leaves lists of the same status in lower(title) order |
| Completion.RowsOfGroups | lib/pg-persistence.js:38 | partitioning neither adds nor drops a table row |
| Completion.UndoneRowsIffHasUndone | lib/pg-persistence.js:127-131 | the complete-all UPDATE matches some row iff the list's workouts include an undone one |
| Completion.NothingToComplete | lib/pg-persistence.js:123-132 | on a list whose workouts are all done, or that has none, the complete-all UPDATE matches no row |
| Persistence.PgPersistence.SortedWorkoutLists | lib/pg-persistence.js:22-39 | every `workoutlists` row exactly once; each carries exactly its own workouts, in the model's table order; undone lists before done lists; within each status lower(title) non-decreasing |
| Persistence.PartitionedListsCorrect | lib/pg-persistence.js:25-38 | reading the lists in lower(title) order, attaching each list's workouts and partitioning gives every row once, in the promised order |
| Persistence.PgPersistence.LoadWorkoutList | lib/pg-persistence.js:57-73 | None iff no list has the id; otherwise that list's row with exactly its workouts attached, in the model's table order |
| Persistence.PgPersistence.SortedWorkouts | lib/pg-persistence.js:80-90 | exactly the workouts whose `workoutlist_id` is the list's id, as a permutation, ordered by done (false first), then num_sets (NULL last), then lower(title) |
| Persistence.PgPersistence.LoadWorkout | lib/pg-persistence.js:92-100 | Some iff a workout with both ids exists, and then it is that workout |
| Persistence.PgPersistence.ToggleDoneWorkout | lib/pg-persistence.js:102-111 | flips `done` on exactly the workout with both ids and changes nothing else; true iff that workout existed |
| Persistence.PgPersistence.DeleteWorkout | lib/pg-persistence.js:114-121 | removes exactly the workout with both ids; true iff it existed |
| Persistence.PgPersistence.CompleteAllWorkouts | lib/pg-persistence.js:123-132 | afterwards every workout of the list is done and no other list's workouts changed; true iff the list had an undone workout |
| Persistence.PgPersistence.CreateWorkout | lib/pg-persistence.js:134-144 | for an existing list, appends one undone workout with a fresh id and returns true; for a missing list the foreign key rejects the INSERT and the error propagates |
| Persistence.PgPersistence.DeleteWorkoutList | lib/pg-persistence.js:146-154 | removes the list and, by cascade, all its workouts and nothing else; true iff the list existed |
| Persistence.PgPersistence.SetTodoListTitle | lib/pg-persistence.js:156-163 | renames the list; false if it does not exist; a title held by another list raises the unique-constraint error |
| Persistence.PgPersistence.ExistsWorkoutListTitle | lib/pg-persistence.js:165-172 | true iff some list has exactly this title |
| Persistence.PgPersistence.InsertWorkoutList | lib/pg-persistence.js:184-187 | the INSERT fails with the outage, or with the unique-constraint error when the title is taken; otherwise it adds the row with the next id |
| Persistence.PgPersistence.CreateWorkoutList | lib/pg-persistence.js:180-193 | true when the list was added; false, with the tables unchanged, for a taken title or any failure classified as a unique-constraint violation; any other failure re-raised |
| Persistence.KeysKept | lib/pg-persistence.js:106-107 | an UPDATE that does not touch the key columns keeps the ids unique and every workout's list |
| Persistence.UpdateTitlesUnmatched | lib/pg-persistence.js:159 | an UPDATE of a missing list changes no row |
| Errors.ErrorString | lib/pg-persistence.js:177 | for an error the server raised, `String(error)` is "error: " followed by the error's message, so the message occurs in it |
| Errors.PrefixOccurs | lib/pg-persistence.js:177 | the start of a text occurs wherever the whole text does |
| Errors.IsUniqueConstraintViolation | lib/pg-persistence.js:174-178 | holds iff the error's text contains "duplicate key value violates unique constraint" |
| Errors.ContainsMeans | lib/pg-persistence.js:177 | the regular-expression test is a substring search |
| Errors.ContainsWitness | lib/pg-persistence.js:177 | a successful test has a position where the wording occurs |
| Errors.OccursAtContains | lib/pg-persistence.js:177 | an occurrence anywhere makes the test succeed |
| Errors.TitleTakenIsUniqueViolation | lib/pg-persistence.js:189-190 | the server's error for a duplicate list title is classified as a unique-constraint violation |
| Tables.SelectListsMembers | lib/pg-persistence.js:61 | `SELECT * FROM workoutlists WHERE ...` returns exactly the rows the clause holds for |
| Tables.SelectWorkoutsMembers | lib/pg-persistence.js:27 | `SELECT * FROM workouts WHERE ...` returns exactly the rows the clause holds for |
| Tables.RowCountPositive | lib/pg-persistence.js:109-110 | `rowCount > 0` iff some workout row matched the WHERE clause |
| Tables.ListRowCountPositive | lib/pg-persistence.js:152-153 | `rowCount > 0` iff some list row matched the WHERE clause |
| Tables.SelectWorkoutsSplit | lib/pg-persistence.js:117 | a DELETE removes exactly the rows a SELECT with the same clause returns, and keeps the rest |
| Tables.SelectListsKeepsUniqueness | lib/pg-persistence.js:150 | deleting list rows keeps ids and titles unique |
| Tables.SelectWorkoutsKeepsUniqueness | lib/pg-persistence.js:117 | deleting workout rows keeps ids unique |
| Tables.UpdateWorkoutsAt | lib/pg-persistence.js:127-128 | an UPDATE rewrites each matching row in place and keeps every other row |
| Tables.UpdateWorkoutsKeepsKeys | lib/pg-persistence.js:106-107 | an UPDATE of `done` keeps every row's id and list id |
| Tables.UpdateTitlesAt | lib/pg-persistence.js:159 | the title UPDATE rewrites the matching row's title and keeps every other row |
| Tables.RetitleKeepsUniqueness | lib/pg-persistence.js:159 | renaming to a title no other list holds keeps ids and titles unique and the set of ids |
| Tables.SameIdSameWorkout | lib/pg-persistence.js:96 | with unique ids at most one workout matches both ids |
| Tables.FlipDoneTwice | lib/pg-persistence.js:106-107 | toggling the same workout twice restores the table |
| Tables.MarkDoneEffect | lib/pg-persistence.js:127-128 | after the complete-all UPDATE no workout of the list is undone and no other list's workouts changed |
| Tables.ByLowerTitleIsTotalPreorder | lib/pg-persistence.js:26 | ORDER BY lower(title) is a total preorder on list rows |
| Tables.WorkoutOrderIsTotalPreorder | lib/pg-persistence.js:86 | ORDER BY done, num_sets, lower(title) is a total preorder on workout rows |
| Ordering.Insert | lib/pg-persistence.js:26 | inserting a row into an ordered result adds exactly that row |
| Ordering.SortBy | lib/pg-persistence.js:26 | ORDER BY returns a permutation of the selected rows |
| Ordering.InsertSorted | lib/pg-persistence.js:26 | inserting into rows in order keeps them in order |
| Ordering.SortBySorted | lib/pg-persistence.js:26 | under a total preorder, ORDER BY returns each row in order with the next |
| Ordering.SortedOrdered | lib/pg-persistence.js:86 | under a transitive order, adjacent order gives order between every pair |
| Collation.StrLeTotal | lib/pg-persistence.js:26 | any two strings are comparable |
| Collation.StrLeTransitive | lib/pg-persistence.js:26 | string order is transitive |
| Collation.StrLeReflexive | lib/pg-persistence.js:26 | every string is at or before itself |
| Collation.TitleLeTotal | lib/pg-persistence.js:26 | any two titles are comparable under lower(title) |
| Collation.TitleLeTransitive | lib/pg-persistence.js:26 | lower(title) order is transitive |
| Collation.TitleLeIgnoresCase | lib/pg-persistence.js:26 | titles that differ only in letter case sort as equals |

## Left out

- All of `workouts.js`: HTTP routing, sessions, flash messages, form validation and rendering.
- Owner scoping, per-owner title uniqueness and `authenticate`: the code has none of them.
- The pg driver and `dbQuery` are not part of this model. Each statement is applied directly to the table fields.
- A lost connection or other server failure is a parameter (`outage`) of `createWorkoutList` only, the one method that catches errors. The other methods are modelled as if their statement always reaches the server.
- `async`/`await` and the `Promise.all` in `loadWorkoutList`: the two reads touch different tables, so they run one after the other in the model.
- SortedWorkoutLists, LoadWorkoutList: each is modelled as one atomic step over one state of the tables. The source runs 1+N separate statements in `sortedWorkoutLists` and two in `loadWorkoutList`, with no transaction around them. Other requests are served at every `await`, and their writes between these statements are not modelled. A list deleted between the two reads, for instance, comes back from the source with no workouts; the contracts rule that out.
- Errors.ErrorString: every error is stringified with the server error's name, "error: ". A client-side failure such as a refused connection is a plain `Error`, whose `String` starts with "Error: " instead. The unique-constraint test is unaffected: it looks for the "duplicate key value violates unique constraint" wording anywhere in the text, and neither prefix contains it.
- `num_time` and `num_weight` are opaque decimal text. `num_sets` and `num_reps` are optional integers the server has already converted. A form value the server cannot convert is not modelled.
- Collation: `lower` folds ASCII letters only. Strings compare by code point (the "C" collation), not by the database's locale.
- Rows that tie under an ORDER BY come back in table order in the model. The contracts of `SortBy` and `SortedWorkouts` state only what SQL guarantees: a permutation in key order.
- SortedWorkoutLists, LoadWorkoutList: the workouts attached to a list are read by a SELECT without ORDER BY, and the source calls them unsorted. PostgreSQL returns such rows in no fixed order; after an UPDATE the changed row often comes back last. The contracts state the attached workouts in the model's table order (`SelectWorkouts`), which is more than the server promises: only the multiset of attached workouts is guaranteed.
- SERIAL ids: the sequence advances only on a successful INSERT. PostgreSQL also uses up a value on a rejected one. Either way, the new id is fresh.
- Integer width: ids are unbounded integers. Overflow of a 32-bit SERIAL is not modelled. An id argument that is not an `integer` value is not modelled either: `NaN` from `+req.params.workoutListId` (`workouts.js:151`) or a number above 2^31-1. The server rejects such a statement with an error. The model takes only integer ids, and for one that no row has it returns false or None.
- The schema is not part of this model. The model assumes `done` defaults to false. It also assumes PostgreSQL's default constraint names in the error texts (`workoutlists_title_key`, `workouts_workoutlist_id_fkey`).
- The driver returns fresh row objects, and the code attaches a `workouts` field to them. The model builds new values instead. No other code holds those rows, so no aliasing is lost.
