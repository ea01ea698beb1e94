/** The two tables the persistence class reads and writes, and the values
    it hands back to its callers. */
module Schema {
  import opened Wrappers

  /** A `numeric` column value as the driver returns it: decimal text,
      carried through and never computed with. */
  datatype Numeric = Numeric(text: string)

  /** A row of `workoutlists`. */
  datatype ListRow = ListRow(id: int, title: string)

  /** A row of `workouts`; the `num_*` columns may be NULL (None). */
  datatype Workout = Workout(
    id: int,
    title: string,
    workoutlistId: int,
    done: bool,
    numSets: Option<int>,
    numReps: Option<int>,
    numTime: Option<Numeric>,
    numWeight: Option<Numeric>)

  /** A `workoutlists` row with a `workouts` field attached to it. */
  datatype WorkoutList = WorkoutList(id: int, title: string, workouts: seq<Workout>)
  {
    /** The table row this list was read from. */
    function Row(): ListRow
    {
      ListRow(id, title)
    }
  }

  /** An error raised by the database; `message` is the server's text. */
  datatype DbError = DbError(message: string)

  /** What the server reports when an INSERT or UPDATE would give two
      `workoutlists` rows the same title. */
  const TitleTakenError := DbError("duplicate key value violates unique constraint \"workoutlists_title_key\"")

  /** What the server reports when a workout would name a list that does
      not exist. */
  const MissingListError := DbError("insert or update on table \"workouts\" violates foreign key constraint \"workouts_workoutlist_id_fkey\"")
}
