/** The relational store both models query, held as Dafny state: the three
    tables `users`, `exercises` and `user_favorites`. A table is the sequence of
    its rows in scan order; the storage-level constraints (primary keys, the
    unique username, the unique favorite pair) are the object invariant. */
module Store {
  import opened Results

  /** A row of `users`. `password` is whatever was written to the password
      column; `register` writes a digest there. `favorites` is the column that
      `update` lists among its mutable columns (NULL when never set). */
  datatype UserRow = UserRow(
    id: int,
    username: string,
    password: string,
    firstName: string,
    lastName: string,
    email: string,
    isAdmin: bool,
    favorites: Option<string>)

  /** The descriptive columns of an `exercises` row. */
  datatype ExerciseData = ExerciseData(
    name: string,
    target: string,
    secondary: seq<string>,
    gif: string,
    instructions: seq<string>)

  /** A row of `exercises`: the surrogate id and the descriptive columns. */
  datatype ExerciseRow = ExerciseRow(id: int, data: ExerciseData)

  /** A row of `user_favorites`. */
  datatype Favorite = Favorite(userId: int, exerciseId: int)

  /** The UNIQUE constraint on users.username. */
  ghost predicate UniqueUsernames(users: seq<UserRow>) {
    forall i, j :: 0 <= i < j < |users| ==> users[i].username != users[j].username
  }

  /** The primary key users.id. */
  ghost predicate UniqueUserIds(users: seq<UserRow>) {
    forall i, j :: 0 <= i < j < |users| ==> users[i].id != users[j].id
  }

  /** Every id was drawn from the users.id serial sequence before it reached `next`. */
  ghost predicate IdsBelow(users: seq<UserRow>, next: int) {
    forall i :: 0 <= i < |users| ==> users[i].id < next
  }

  /** The primary key exercises.id. */
  ghost predicate UniqueExerciseIds(exercises: seq<ExerciseRow>) {
    forall i, j :: 0 <= i < j < |exercises| ==> exercises[i].id != exercises[j].id
  }

  /** The uniqueness constraint on the (user_id, exercise_id) pair. */
  ghost predicate NoDuplicates(favorites: seq<Favorite>) {
    forall i, j :: 0 <= i < j < |favorites| ==> favorites[i] != favorites[j]
  }

  /** The database: three tables and the users.id sequence. */
  class Database {
    var users: seq<UserRow>
    var exercises: seq<ExerciseRow>
    var favorites: seq<Favorite>
    /** The next value the users.id serial sequence hands out. */
    var nextUserId: int

    /** The storage constraints. The schema is not part of this model, and the
        model assumes no foreign key ties `favorites` to the other tables, so
        favorite rows may outlive the user or exercise they name: the
        catalogue is emptied by `refreshData` (backend/models/exercise.js:107)
        and a user row is deleted by `remove` without touching favorites. */
    ghost predicate Valid()
      reads this
    {
      && UniqueUsernames(users)
      && UniqueUserIds(users)
      && IdsBelow(users, nextUserId)
      && UniqueExerciseIds(exercises)
      && NoDuplicates(favorites)
    }

    /** A database with no users and no favorites over the given catalogue;
        the users.id sequence starts at 1, as a serial column does. */
    constructor (catalogue: seq<ExerciseRow>)
      requires UniqueExerciseIds(catalogue)
      ensures Valid()
      ensures users == [] && exercises == catalogue && favorites == []
      ensures nextUserId == 1
    {
      users := [];
      exercises := catalogue;
      favorites := [];
      nextUserId := 1;
    }
  }

  /** Lookup by username, keeping the first row returned (backend/models/user.js:21-32):
      the index of the first row with that username, if any. */
  function FindUser(users: seq<UserRow>, username: string): (r: Option<nat>)
    ensures r.Some? ==> r.value < |users| && users[r.value].username == username
    ensures r.Some? ==> forall j :: 0 <= j < r.value ==> users[j].username != username
    ensures r.None? <==> forall j :: 0 <= j < |users| ==> users[j].username != username
  {
    if |users| == 0 then None
    else if users[0].username == username then Some(0)
    else
      match FindUser(users[1..], username)
      case None => None
      case Some(i) => Some(i + 1)
  }

  /** With unique usernames, the row found for a name is the only row with it. */
  lemma FindUserUnique(users: seq<UserRow>, i: nat)
    requires UniqueUsernames(users) && i < |users|
    ensures FindUser(users, users[i].username) == Some(i)
  {
  }

  /** The existence check by id (backend/models/exercise.js:138-148): true
      exactly when some row carries that id. */
  function HasUserId(users: seq<UserRow>, id: int): (r: bool)
    ensures r <==> exists row :: row in users && row.id == id
  {
    if |users| == 0 then false
    else users[0].id == id || HasUserId(users[1..], id)
  }
}
